/**
 Whether a customer is ever on two plans at once (backend/src/plans/subscriptions.service.ts:25-57), over runs in
 which workers, subscriptions and plan changes interleave.
 */
module OnePlan {
  import opened Options
  import opened Calendar
  import opened Billing
  import opened Renewal
  import opened RenewalProtocol
  import opened Sweep
  import opened PlanChanges

  /** Two live rows of one customer are the same row. */
  ghost predicate OnePlanEach(st: Store) {
    forall customer: nat, i: nat, j: nat :: LiveFor(st, customer, i) && LiveFor(st, customer, j) ==> i == j
  }

  predicate LeavesOneLive(st: Store, customer: nat, missed: set<nat>) {
    exists i: nat :: i < |st.subscriptions| && IsLeftLive(st, customer, missed, i)
  }

  predicate HasOtherLive(st: Store, id: nat) {
    id < |st.subscriptions|
    && exists j: nat :: j < |st.subscriptions| && j != id && LiveFor(st, st.subscriptions[id].customer, j)
  }

  /** The ways onto a second plan: subscribing while another one is past due, for only active ones are superseded,
      or is made by somebody else at the same time; and changing the plan of a row, in whatever status, while another
      is live. */
  predicate GivesSecondPlan(st: Store, a: Act) {
    (a.Step? && a.event.Subscribe? && LeavesOneLive(st, a.event.customer, a.event.missed))
    || (a.MovePlan? && HasOtherLive(st, a.subscription))
  }

  // ---------- One act ----------

  /** No row becomes live that was not. */
  ghost predicate NoneRevived(st: Store, after: Store) {
    |after.subscriptions| == |st.subscriptions|
    && forall i :: 0 <= i < |st.subscriptions| ==>
         after.subscriptions[i].customer == st.subscriptions[i].customer
         && (Live(after.subscriptions[i].status) ==> Live(st.subscriptions[i].status))
  }

  lemma NoneRevivedKeepsOne(st: Store, after: Store)
    requires OnePlanEach(st) && NoneRevived(st, after)
    ensures OnePlanEach(after)
  {
    forall customer: nat, i: nat, j: nat | LiveFor(after, customer, i) && LiveFor(after, customer, j)
      ensures i == j
    {
      assert LiveFor(st, customer, i) && LiveFor(st, customer, j);
    }
  }

  lemma WorkerStepRevivesNone(st: Store, t: Task, e: Event)
    requires SawLive(t)
    ensures NoneRevived(st, WorkerStep(st, t, e).0)
  {
    hide IssueIn, ReadForRenewal, PeriodTaken;
    if t.Issuing? && e.Issue? {
      IssueKeepsSubscriptions(st, RenewalDraft(t.customer, t.subscription, t.periodStart), e.now);
    }
  }

  lemma OtherStepRevivesNone(st: Store, e: Event)
    requires !e.Subscribe?
    ensures NoneRevived(st, OtherStep(st, e))
  {
    hide IssueIn;
    if e.IssueOther? {
      IssueKeepsSubscriptions(st, Draft(e.customer, TaxInvoice, None, None, e.dueAt), e.now);
    }
    if e.CreditInvoice? && e.invoice < |st.invoices| {
      var draft := Draft(st.invoices[e.invoice].draft.customer, CreditNote, None, Some(e.invoice), None);
      IssueKeepsSubscriptions(st, draft, e.now);
    }
  }

  lemma SubscribingIff(st: Store, customer: nat, cycle: BillingCycle, now: int, missed: set<nat>)
    requires OnePlanEach(st)
    ensures OnePlanEach(SubscribeIn(st, customer, cycle, now, missed)) <==> !LeavesOneLive(st, customer, missed)
  {
    hide SubscribeIn, LiveFor, IsLeftLive;
    var after := SubscribeIn(st, customer, cycle, now, missed);
    var n := |st.subscriptions|;
    forall id: nat
      ensures LiveFor(after, customer, id) <==> id == n || IsLeftLive(st, customer, missed, id)
      ensures LiveFor(st, customer, id) ==> id < n
      ensures IsLeftLive(st, customer, missed, id) ==> LiveFor(st, customer, id)
    {
      LiveAfterSubscribing(st, customer, cycle, now, missed, id);
    }
    forall other: nat, id: nat | other != customer
      ensures LiveFor(after, other, id) <==> LiveFor(st, other, id)
    {
      OthersKeepTheirs(st, customer, cycle, now, missed, other, id);
    }
    if LeavesOneLive(st, customer, missed) {
      var i: nat :| i < n && IsLeftLive(st, customer, missed, i);
      assert LiveFor(after, customer, i) && LiveFor(after, customer, n);
    }
  }

  lemma OthersKeepTheirs(st: Store, customer: nat, cycle: BillingCycle, now: int, missed: set<nat>, other: nat, id: nat)
    requires other != customer
    ensures LiveFor(SubscribeIn(st, customer, cycle, now, missed), other, id) <==> LiveFor(st, other, id)
  {
    hide NextRenewal;
  }

  lemma MovingIff(st: Store, id: nat, cycle: BillingCycle, now: int)
    requires OnePlanEach(st) && id < |st.subscriptions|
    ensures OnePlanEach(MovePlanIn(st, id, cycle, now)) <==> !HasOtherLive(st, id)
  {
    hide NextRenewal, LiveFor, MovePlanIn;
    var after, customer := MovePlanIn(st, id, cycle, now), st.subscriptions[id].customer;
    forall c: nat, i: nat
      ensures LiveFor(after, c, i) <==> if i == id then c == customer else LiveFor(st, c, i)
      ensures LiveFor(st, c, i) ==> i < |st.subscriptions|
    {
      LiveAfterMoving(st, id, cycle, now, c, i);
    }
    if HasOtherLive(st, id) {
      var j: nat :| j < |st.subscriptions| && j != id && LiveFor(st, customer, j);
      assert LiveFor(after, customer, id) && LiveFor(after, customer, j);
    }
  }

  lemma LiveAfterMoving(st: Store, id: nat, cycle: BillingCycle, now: int, c: nat, i: nat)
    requires id < |st.subscriptions|
    ensures LiveFor(MovePlanIn(st, id, cycle, now), c, i)
            <==> if i == id then c == st.subscriptions[id].customer else LiveFor(st, c, i)
    ensures LiveFor(st, c, i) ==> i < |st.subscriptions|
  {
    hide NextRenewal;
  }

  /** One act leaves every customer on one plan at most exactly when it is neither of those two. */
  lemma ActKeepsOnePlanIff(sys: System, a: Act)
    requires AllSawLive(sys) && OnePlanEach(sys.store) && CanAct(sys, a)
    ensures OnePlanEach(Perform(sys, a).store) <==> !GivesSecondPlan(sys.store, a)
  {
    hide OnePlanEach, NoneRevived, LeavesOneLive, HasOtherLive, WorkerStep, SubscribeIn, MovePlanIn, Enabled;
    var st := sys.store;
    match a
    case MovePlan(id, cycle, now) => MovingIff(st, id, cycle, now);
    case Step(e) =>
      if e.Subscribe? {
        SubscribingIff(st, e.customer, e.cycle, e.now, e.missed);
      } else {
        if ByWorker(e) {
          WorkerStepRevivesNone(st, TaskOf(sys, e.worker), e);
        } else {
          OtherStepRevivesNone(st, e);
        }
        NoneRevivedKeepsOne(st, Perform(sys, a).store);
      }
  }

  // ---------- Runs ----------

  ghost predicate OnePlanThroughout(sys: System, acts: seq<Act>)
    decreases |acts|
  {
    OnePlanEach(sys.store) && (acts == [] || OnePlanThroughout(Perform(sys, acts[0]), acts[1..]))
  }

  predicate NoneGivesSecondPlan(sys: System, acts: seq<Act>)
    decreases |acts|
  {
    acts == []
    || (!GivesSecondPlan(sys.store, acts[0]) && NoneGivesSecondPlan(Perform(sys, acts[0]), acts[1..]))
  }

  /** Over whole runs: no customer is ever on two plans exactly when no act of the run is one of those two. */
  lemma {:induction false} OnePlanIff(sys: System, acts: seq<Act>)
    requires AllSawLive(sys) && OnePlanEach(sys.store) && ValidActs(sys, acts)
    ensures OnePlanThroughout(sys, acts) <==> NoneGivesSecondPlan(sys, acts)
    decreases |acts|
  {
    hide OnePlanEach, AllSawLive, Perform, CanAct, GivesSecondPlan;
    if acts != [] {
      ActKeepsOnePlanIff(sys, acts[0]);
      ActKeepsSawLive(sys, acts[0]);
      if OnePlanEach(Perform(sys, acts[0]).store) {
        OnePlanIff(Perform(sys, acts[0]), acts[1..]);
      }
    }
  }

  lemma NobodyHasAPlan()
    ensures OnePlanEach(INITIAL_SYSTEM.store) && AllSawLive(INITIAL_SYSTEM)
  {
  }

  /** In particular from nothing. */
  lemma NeverTwoPlansIff(acts: seq<Act>)
    requires ValidActs(INITIAL_SYSTEM, acts)
    ensures OnePlanThroughout(INITIAL_SYSTEM, acts) <==> NoneGivesSecondPlan(INITIAL_SYSTEM, acts)
  {
    hide ValidActs, OnePlanThroughout, NoneGivesSecondPlan;
    NobodyHasAPlan();
    OnePlanIff(INITIAL_SYSTEM, acts);
  }

  // ---------- Both ways are open ----------

  function TwoRows(first: Subscription, second: Subscription): Store {
    Store([first, second], [], map[])
  }

  function Superseding(first: Subscription, now: int): Subscription {
    Superseded(first, first.customer, now)
  }

  lemma SubscribeAgain(first: Subscription, cycle: BillingCycle, now: int, missed: set<nat>)
    requires Supported(now)
    ensures var a, sys := Step(Subscribe(first.customer, cycle, now, missed)), OneRow(first, map[]);
            var second := Subscribed(first.customer, cycle, now);
            CanAct(sys, a) && Perform(sys, a)
               == System(TwoRows(if 0 in missed then first else Superseding(first, now), second), map[])
  {
    hide NextRenewal, Supported;
    var second := Subscribed(first.customer, cycle, now);
    assert SubscribeIn(OneRow(first, map[]).store, first.customer, cycle, now, missed).subscriptions
           == [if 0 in missed then first else Superseding(first, now), second];
  }

  lemma MoveFirst(first: Subscription, second: Subscription, cycle: BillingCycle, now: int)
    ensures var a, sys := MovePlan(0, cycle, now), System(TwoRows(first, second), map[]);
            var moved := first.(cycle := cycle, startsAt := now, renewsAt := NextRenewal(now, cycle), status := Active);
            CanAct(sys, a) && Perform(sys, a) == System(TwoRows(moved, second), map[])
  {
    hide NextRenewal;
    var moved := first.(cycle := cycle, startsAt := now, renewsAt := NextRenewal(now, cycle), status := Active);
    assert [first, second][0 := moved] == [moved, second];
  }

  function PlanChangeRun(customer: nat, cycle: BillingCycle, now: int): seq<Act> {
    [Step(Subscribe(customer, cycle, now, {})), Step(Subscribe(customer, cycle, now, {})), MovePlan(0, cycle, now)]
  }

  /** A customer subscribes twice, and then the plan of the first, superseded subscription is changed: they are on
      two plans, and neither was ever past due. */
  lemma PlanChangeCanGiveTwoPlans(customer: nat, cycle: BillingCycle, now: int)
    requires Supported(now)
    ensures var acts := PlanChangeRun(customer, cycle, now);
            ValidActs(INITIAL_SYSTEM, acts)
            && (forall n, id: nat :: 0 <= n <= 3 ==>
                  var st := AfterActs(INITIAL_SYSTEM, acts[..n]).store;
                  id < |st.subscriptions| ==> st.subscriptions[id].status != PastDue)
            && (var st := AfterActs(INITIAL_SYSTEM, acts).store;
                LiveFor(st, customer, 0) && LiveFor(st, customer, 1))
  {
    hide NextRenewal, Supported, ValidActs, AfterActs, CanAct, Perform;
    var acts := PlanChangeRun(customer, cycle, now);
    var s := Subscribed(customer, cycle, now);
    var superseded := Superseding(s, now);
    var moved := superseded.(cycle := cycle, startsAt := now, renewsAt := NextRenewal(now, cycle), status := Active);
    var trace := [INITIAL_SYSTEM, OneRow(s, map[]), System(TwoRows(superseded, s), map[]),
                  System(TwoRows(moved, s), map[])];
    FirstSubscription(customer, cycle, now);
    SubscribeAgain(s, cycle, now, {});
    MoveFirst(superseded, s, cycle, now);
    forall n | 0 <= n <= 3
      ensures ValidActs(INITIAL_SYSTEM, acts[..n]) && AfterActs(INITIAL_SYSTEM, acts[..n]) == trace[n]
    {
      TraceIsARun(acts, trace, n);
    }
    assert acts[..3] == acts;
  }

  function OverlapRun(customer: nat, cycle: BillingCycle, now: int): seq<Act> {
    [Step(Subscribe(customer, cycle, now, {})), Step(Subscribe(customer, cycle, now, {0}))]
  }

  /** A customer subscribes twice at the same time, so that neither transaction sees the other's row. */
  lemma OverlapCanGiveTwoPlans(customer: nat, cycle: BillingCycle, now: int)
    requires Supported(now)
    ensures var acts := OverlapRun(customer, cycle, now);
            ValidActs(INITIAL_SYSTEM, acts)
            && (var st := AfterActs(INITIAL_SYSTEM, acts).store;
                LiveFor(st, customer, 0) && LiveFor(st, customer, 1))
  {
    hide NextRenewal, Supported, ValidActs, AfterActs, CanAct, Perform;
    var acts, s := OverlapRun(customer, cycle, now), Subscribed(customer, cycle, now);
    var trace := [INITIAL_SYSTEM, OneRow(s, map[]), System(TwoRows(s, s), map[])];
    FirstSubscription(customer, cycle, now);
    SubscribeAgain(s, cycle, now, {0});
    TraceIsARun(acts, trace, 2);
    assert acts[..2] == acts;
  }

  /** A subscription falls into arrears, so it is past due when the customer subscribes again. */
  function ArrearsRun(customer: nat, cycle: BillingCycle, now: int): seq<Act> {
    [Step(Subscribe(customer, cycle, now, {})), Step(IssueOther(customer, Some(now), now)), Step(StartWorker(0)),
     Step(ListArrears(0, now + 1, [Assessed(0, Active, true)])), Step(ReassessRow(0)),
     Step(Subscribe(customer, cycle, now, {}))]
  }

  function Overdue(customer: nat, now: int): Invoice {
    Invoice(Draft(customer, TaxInvoice, None, None, Some(now)), FinancialYearFor(now), 1, Issued)
  }

  function InArrears(s: Subscription, now: int): Store {
    Store([s], [Overdue(s.customer, now)], map[FinancialYearFor(now) := 1])
  }

  lemma IssueFirst(s: Subscription, now: int)
    ensures var a := Step(IssueOther(s.customer, Some(now), now));
            CanAct(OneRow(s, map[]), a) && Perform(OneRow(s, map[]), a) == System(InArrears(s, now), map[])
  {
    hide FinancialYearFor;
  }

  lemma ReassessFirst(s: Subscription, now: int)
    requires s.status == Active
    ensures var rows := [Assessed(0, Active, true)];
            var idle, listed := System(InArrears(s, now), map[0 := Idle]),
              System(InArrears(s, now), map[0 := Reassessing(rows)]);
            IsAssessed(InArrears(s, now), rows[0], now + 1)
            && CanAct(idle, Step(ListArrears(0, now + 1, rows)))
            && Perform(idle, Step(ListArrears(0, now + 1, rows))) == listed
            && CanAct(listed, Step(ReassessRow(0)))
            && Perform(listed, Step(ReassessRow(0)))
               == System(InArrears(s.(status := PastDue), now), map[0 := Reassessing([])])
  {
    hide FinancialYearFor;
    assert [Assessed(0, Active, true)][1..] == [];
    assert InArrears(s, now).invoices[0] == Overdue(s.customer, now);
  }

  lemma SubscribeInArrears(s: Subscription, cycle: BillingCycle, now: int, tasks: map<nat, Task>)
    requires Supported(now) && s.status == PastDue
    ensures var a, sys := Step(Subscribe(s.customer, cycle, now, {})), System(InArrears(s, now), tasks);
            var second := Subscribed(s.customer, cycle, now);
            CanAct(sys, a)
            && Perform(sys, a) == System(InArrears(s, now).(subscriptions := [s, second]), tasks)
  {
    hide NextRenewal, Supported, FinancialYearFor;
    var second := Subscribed(s.customer, cycle, now);
    assert SubscribeIn(InArrears(s, now), s.customer, cycle, now, {}).subscriptions == [s, second];
  }

  /** The other way: at the reassessment the customer does owe, and after the second subscription both are live. */
  lemma ArrearsCanGiveTwoPlans(customer: nat, cycle: BillingCycle, now: int)
    requires Supported(now)
    ensures var acts := ArrearsRun(customer, cycle, now);
            ValidActs(INITIAL_SYSTEM, acts)
            && IsAssessed(AfterActs(INITIAL_SYSTEM, acts[..3]).store, Assessed(0, Active, true), now + 1)
            && (var st := AfterActs(INITIAL_SYSTEM, acts).store;
                LiveFor(st, customer, 0) && LiveFor(st, customer, 1))
  {
    hide NextRenewal, Supported, FinancialYearFor, ValidActs, AfterActs, CanAct, Perform, IsAssessed;
    var acts := ArrearsRun(customer, cycle, now);
    var s := Subscribed(customer, cycle, now);
    var late, rows := s.(status := PastDue), [Assessed(0, Active, true)];
    var owing, owed := InArrears(s, now), InArrears(late, now);
    var done := map[0 := Reassessing([])];
    var trace := [INITIAL_SYSTEM, OneRow(s, map[]), System(owing, map[]), System(owing, map[0 := Idle]),
                  System(owing, map[0 := Reassessing(rows)]), System(owed, done),
                  System(owed.(subscriptions := [late, s]), done)];
    FirstSubscription(customer, cycle, now);
    IssueFirst(s, now);
    StartFirst(owing);
    ReassessFirst(s, now);
    SubscribeInArrears(late, cycle, now, done);
    TraceIsARun(acts, trace, 3);
    TraceIsARun(acts, trace, 6);
    assert acts[..6] == acts;
  }
}
