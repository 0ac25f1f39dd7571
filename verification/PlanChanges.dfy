/**
 The renewal protocol with staff changing plans in the middle of it (backend/src/plans/subscriptions.service.ts).

 A plan change issues an invoice for no period, an event of the protocol already, and then starts the row afresh
 without comparing anything. Exactly-once billing is about one schedule; these are the properties that survive a
 change of it.
 */
module PlanChanges {
  import opened Options
  import opened Calendar
  import opened Billing
  import opened Renewal
  import opened RenewalProtocol

  datatype Act =
    | Step(event: Event)
    | MovePlan(subscription: nat, cycle: BillingCycle, now: int)

  predicate CanAct(sys: System, a: Act) {
    match a
    case Step(e) => Enabled(sys, e)
    case MovePlan(id, _, _) => id < |sys.store.subscriptions|
  }

  function Perform(sys: System, a: Act): System {
    match a
    case Step(e) => Apply(sys, e)
    case MovePlan(id, cycle, now) => sys.(store := MovePlanIn(sys.store, id, cycle, now))
  }

  predicate ValidActs(sys: System, acts: seq<Act>)
    decreases |acts|
  {
    acts == [] || (CanAct(sys, acts[0]) && ValidActs(Perform(sys, acts[0]), acts[1..]))
  }

  function AfterActs(sys: System, acts: seq<Act>): System
    decreases |acts|
  {
    if acts == [] then sys else AfterActs(Perform(sys, acts[0]), acts[1..])
  }

  // ---------- What survives ----------

  /** No period is invoiced twice. */
  ghost predicate AtMostOnce(st: Store) {
    forall p :: CountPeriod(st.invoices, p) <= 1
  }

  /** What is being re-assessed was seen live. */
  predicate SawLive(t: Task) {
    t.Reassessing? ==> forall r :: r in t.assessed ==> Live(r.seen)
  }

  predicate AllSawLive(sys: System) {
    forall w :: w in sys.tasks ==> SawLive(sys.tasks[w])
  }

  ghost predicate BooksInv(st: Store) {
    Gapless(st) && AtMostOnce(st)
  }

  lemma IssueKeepsBooks(st: Store, draft: Draft, now: int)
    requires BooksInv(st)
    ensures BooksInv(IssueIn(st, draft, now).0)
  {
    hide Gapless, CountPeriod, IssueIn;
    IssueKeepsGapless(st, draft, now);
    forall p
      ensures CountPeriod(IssueIn(st, draft, now).0.invoices, p) <= 1
    {
      IssueCounts(st, draft, now, p);
    }
  }

  lemma SameBooks(st: Store, after: Store)
    requires BooksInv(st) && after.invoices == st.invoices && after.counters == st.counters
    ensures BooksInv(after)
  {
    hide SerialsOf, CountPeriod;
    assert forall year :: Counter(after, year) == Counter(st, year);
  }

  lemma StatusKeepsBooks(st: Store, id: nat, status: InvoiceStatus)
    requires BooksInv(st) && id < |st.invoices|
    ensures BooksInv(SetInvoiceStatus(st, id, status))
  {
    var after := SetInvoiceStatus(st, id, status);
    forall p
      ensures CountPeriod(after.invoices, p) <= 1
    {
      StatusDoesNotCount(st.invoices, after.invoices, p, 0);
    }
    forall year
      ensures SerialsOf(after.invoices, year) == UpTo(Counter(after, year))
    {
      StatusDoesNotCount(st.invoices, after.invoices, Period(0, 0), year);
    }
  }

  lemma WorkerStepKeepsBooks(st: Store, t: Task, e: Event)
    requires BooksInv(st)
    ensures BooksInv(WorkerStep(st, t, e).0)
  {
    hide BooksInv, IssueIn, ReadForRenewal, PeriodTaken;
    var after := WorkerStep(st, t, e).0;
    if t.Issuing? && e.Issue? {
      IssueKeepsBooks(st, RenewalDraft(t.customer, t.subscription, t.periodStart), e.now);
    } else {
      SameBooks(st, after);
    }
  }

  lemma OtherStepKeepsBooks(st: Store, e: Event)
    requires BooksInv(st)
    ensures BooksInv(OtherStep(st, e))
  {
    hide BooksInv, IssueIn, SubscribeIn, Live, NextRenewal;
    match e
    case IssueOther(customer, dueAt, now) =>
      IssueKeepsBooks(st, Draft(customer, TaxInvoice, None, None, dueAt), now);
    case CreditInvoice(id, now) =>
      if id < |st.invoices| {
        IssueKeepsBooks(st, Draft(st.invoices[id].draft.customer, CreditNote, None, Some(id), None), now);
      }
    case VoidInvoice(id) =>
      if id < |st.invoices| {
        StatusKeepsBooks(st, id, Void);
      }
    case PayInvoice(id) =>
      if id < |st.invoices| {
        StatusKeepsBooks(st, id, Paid);
      }
    case Subscribe(customer, cycle, now, missed) =>
      SubscribingKeepsBooks(st, customer, cycle, now, missed);
    case _ =>
      SameBooks(st, OtherStep(st, e));
  }

  lemma SubscribingKeepsBooks(st: Store, customer: nat, cycle: BillingCycle, now: int, missed: set<nat>)
    requires BooksInv(st)
    ensures BooksInv(SubscribeIn(st, customer, cycle, now, missed))
  {
    hide BooksInv, NextRenewal;
    SameBooks(st, SubscribeIn(st, customer, cycle, now, missed));
  }

  lemma ActKeepsBooks(sys: System, a: Act)
    requires BooksInv(sys.store)
    ensures BooksInv(Perform(sys, a).store)
  {
    hide BooksInv, WorkerStep, OtherStep, NextRenewal;
    match a
    case MovePlan(id, cycle, now) => SameBooks(sys.store, MovePlanIn(sys.store, id, cycle, now));
    case Step(e) =>
      if ByWorker(e) {
        WorkerStepKeepsBooks(sys.store, TaskOf(sys, e.worker), e);
      } else {
        OtherStepKeepsBooks(sys.store, e);
      }
  }

  lemma WorkerStepSawLive(sys: System, e: Event)
    requires ByWorker(e) && Enabled(sys, e) && SawLive(TaskOf(sys, e.worker))
    ensures SawLive(WorkerStep(sys.store, TaskOf(sys, e.worker), e).1)
  {
    hide IssueIn, ReadForRenewal, PeriodTaken, AdvanceIn, ExpireIn, ReassessIn, IsDue, IsRunOut, Owes;
  }

  lemma ActKeepsSawLive(sys: System, a: Act)
    requires AllSawLive(sys) && CanAct(sys, a)
    ensures AllSawLive(Perform(sys, a))
  {
    hide WorkerStep, OtherStep, Enabled, NextRenewal;
    if a.Step? && ByWorker(a.event) {
      WorkerStepSawLive(sys, a.event);
    }
  }

  lemma {:induction false} ActsKeepBooks(sys: System, acts: seq<Act>)
    requires BooksInv(sys.store) && AllSawLive(sys) && ValidActs(sys, acts)
    ensures BooksInv(AfterActs(sys, acts).store) && AllSawLive(AfterActs(sys, acts))
    decreases |acts|
  {
    hide BooksInv, AllSawLive, Perform, CanAct;
    if acts != [] {
      ActKeepsBooks(sys, acts[0]);
      ActKeepsSawLive(sys, acts[0]);
      ActsKeepBooks(Perform(sys, acts[0]), acts[1..]);
    }
  }

  /** Whatever plans are changed in the middle of whatever renewals: no period of a subscription is invoiced
      twice, and each financial year's serials are 1, 2, ... up to its counter. */
  lemma BooksSurvivePlanChanges(acts: seq<Act>)
    requires ValidActs(INITIAL_SYSTEM, acts)
    ensures BooksInv(AfterActs(INITIAL_SYSTEM, acts).store) && AllSawLive(AfterActs(INITIAL_SYSTEM, acts))
  {
    hide ValidActs, AfterActs;
    ActsKeepBooks(INITIAL_SYSTEM, acts);
  }

  // ---------- Ended subscriptions ----------

  predicate Ended(s: Status) {
    s == Cancelled || s == Expired
  }

  predicate EndedIn(st: Store, id: nat) {
    id < |st.subscriptions| && Ended(st.subscriptions[id].status)
  }

  predicate SameStatus(st: Store, after: Store, id: nat) {
    id < |st.subscriptions| && id < |after.subscriptions|
    && after.subscriptions[id].status == st.subscriptions[id].status
  }

  predicate Revives(a: Act, id: nat) {
    a.MovePlan? && a.subscription == id
  }

  lemma RenewalStepKeepsStatus(st: Store, t: Task, e: Event, id: nat)
    requires id < |st.subscriptions|
    ensures SameStatus(st, RenewalStepOf(st, t, e).0, id)
  {
    hide IssueIn, ReadForRenewal, PeriodTaken;
    if t.Issuing? && e.Issue? {
      IssueKeepsSubscriptions(st, RenewalDraft(t.customer, t.subscription, t.periodStart), e.now);
    }
  }

  lemma WorkerStepKeepsEnded(st: Store, t: Task, e: Event, id: nat)
    requires SawLive(t) && EndedIn(st, id)
    ensures SameStatus(st, WorkerStep(st, t, e).0, id)
  {
    hide RenewalStepOf;
    RenewalStepKeepsStatus(st, t, e, id);
  }

  lemma OtherStepKeepsEnded(st: Store, e: Event, id: nat)
    requires EndedIn(st, id)
    ensures SameStatus(st, OtherStep(st, e), id)
  {
    hide IssueIn, NextRenewal;
    if e.IssueOther? {
      IssueKeepsSubscriptions(st, Draft(e.customer, TaxInvoice, None, None, e.dueAt), e.now);
    }
    if e.CreditInvoice? && e.invoice < |st.invoices| {
      var draft := Draft(st.invoices[e.invoice].draft.customer, CreditNote, None, Some(e.invoice), None);
      IssueKeepsSubscriptions(st, draft, e.now);
    }
  }

  /** One act changes the status of an ended subscription exactly when it changes that subscription's plan. */
  lemma EndedChangesIff(sys: System, a: Act, id: nat)
    requires AllSawLive(sys) && CanAct(sys, a) && EndedIn(sys.store, id)
    ensures SameStatus(sys.store, Perform(sys, a).store, id) <==> !Revives(a, id)
    ensures Revives(a, id) ==> Perform(sys, a).store.subscriptions[id].status == Active
  {
    hide WorkerStep, OtherStep, Enabled, NextRenewal;
    if a.Step? {
      if ByWorker(a.event) {
        WorkerStepKeepsEnded(sys.store, TaskOf(sys, a.event.worker), a.event, id);
      } else {
        OtherStepKeepsEnded(sys.store, a.event, id);
      }
    }
  }

  /** A cancelled or expired subscription keeps that status through every run in which its plan is not changed,
      whatever workers and staff do. */
  lemma {:induction false} EndedUntilPlanChange(sys: System, acts: seq<Act>, id: nat)
    requires AllSawLive(sys) && ValidActs(sys, acts) && EndedIn(sys.store, id)
    requires forall a :: a in acts ==> !Revives(a, id)
    ensures SameStatus(sys.store, AfterActs(sys, acts).store, id)
    decreases |acts|
  {
    hide Perform, CanAct, AllSawLive, Revives;
    if acts != [] {
      EndedChangesIff(sys, acts[0], id);
      ActKeepsSawLive(sys, acts[0]);
      EndedUntilPlanChange(Perform(sys, acts[0]), acts[1..], id);
    }
  }

  // ---------- Runs one act at a time ----------

  /** A run that goes through the states of `trace`. */
  predicate Traces(acts: seq<Act>, trace: seq<System>) {
    |trace| == |acts| + 1
    && forall i :: 0 <= i < |acts| ==> CanAct(trace[i], acts[i]) && Perform(trace[i], acts[i]) == trace[i + 1]
  }

  lemma {:induction false} TraceIsARun(acts: seq<Act>, trace: seq<System>, n: nat)
    requires Traces(acts, trace) && n <= |acts|
    ensures ValidActs(trace[0], acts[..n]) && AfterActs(trace[0], acts[..n]) == trace[n]
  {
    hide CanAct, Perform;
    if n > 0 {
      TraceIsARun(acts, trace, n - 1);
      ActsAndOne(trace[0], acts[..n - 1], acts[n - 1]);
      assert acts[..n] == acts[..n - 1] + [acts[n - 1]];
    }
  }

  lemma {:induction false} ActsAndOne(sys: System, acts: seq<Act>, a: Act)
    requires ValidActs(sys, acts) && CanAct(AfterActs(sys, acts), a)
    ensures ValidActs(sys, acts + [a]) && AfterActs(sys, acts + [a]) == Perform(AfterActs(sys, acts), a)
    decreases |acts|
  {
    hide CanAct, Perform;
    if acts == [] {
      assert [] + [a] == [a] && [a][1..] == [];
    } else {
      assert (acts + [a])[0] == acts[0] && (acts + [a])[1..] == acts[1..] + [a];
      ActsAndOne(Perform(sys, acts[0]), acts[1..], a);
    }
  }

  function Subscribed(customer: nat, cycle: BillingCycle, now: int): Subscription {
    Subscription(customer, now, NextRenewal(now, cycle), cycle, Active, true, None)
  }

  /** Somebody subscribes, cancels, and a worker expires the row when it has run out; then staff change its plan. */
  function RevivalRun(customer: nat, cycle: BillingCycle, now: int): seq<Act> {
    var end := NextRenewal(now, cycle);
    [Step(Subscribe(customer, cycle, now, {})), Step(Cancel(0, now)), Step(StartWorker(0)),
     Step(ListExpired(0, end, [Due(0, end)])), Step(ExpireRow(0)), MovePlan(0, cycle, end)]
  }

  /** One subscription and no invoices. */
  function OneRow(s: Subscription, tasks: map<nat, Task>): System {
    System(Store([s], [], map[]), tasks)
  }

  lemma FirstSubscription(customer: nat, cycle: BillingCycle, now: int)
    requires Supported(now)
    ensures var a := Step(Subscribe(customer, cycle, now, {}));
            CanAct(INITIAL_SYSTEM, a)
            && Perform(INITIAL_SYSTEM, a) == OneRow(Subscribed(customer, cycle, now), map[])
  {
    hide NextRenewal, Supported;
  }

  lemma CancelOne(s: Subscription, now: int)
    ensures var a := Step(Cancel(0, now));
            CanAct(OneRow(s, map[]), a)
            && Perform(OneRow(s, map[]), a) == OneRow(s.(autoRenew := false, cancelledAt := Some(now)), map[])
  {
  }

  lemma StartFirst(st: Store)
    ensures CanAct(System(st, map[]), Step(StartWorker(0)))
    ensures Perform(System(st, map[]), Step(StartWorker(0))) == System(st, map[0 := Idle])
  {
  }

  lemma ExpireOne(s: Subscription)
    requires Live(s.status) && s.cancelledAt.Some? && !s.autoRenew
    ensures var idle, rows := OneRow(s, map[0 := Idle]), [Due(0, s.renewsAt)];
            var listed := OneRow(s, map[0 := Expiring(rows)]);
            CanAct(idle, Step(ListExpired(0, s.renewsAt, rows)))
            && Perform(idle, Step(ListExpired(0, s.renewsAt, rows))) == listed
            && CanAct(listed, Step(ExpireRow(0)))
            && Perform(listed, Step(ExpireRow(0))) == OneRow(s.(status := Expired), map[0 := Expiring([])])
  {
    assert [Due(0, s.renewsAt)][1..] == [];
  }

  lemma MoveOne(s: Subscription, tasks: map<nat, Task>, cycle: BillingCycle, now: int)
    ensures var a := MovePlan(0, cycle, now);
            var moved := s.(cycle := cycle, startsAt := now, renewsAt := NextRenewal(now, cycle), status := Active);
            CanAct(OneRow(s, tasks), a) && Perform(OneRow(s, tasks), a) == OneRow(moved, tasks)
  {
    hide NextRenewal;
  }

  function RevivalTrace(customer: nat, cycle: BillingCycle, now: int): (trace: seq<System>)
    ensures |trace| == 7
  {
    var end := NextRenewal(now, cycle);
    var active := Subscribed(customer, cycle, now);
    var cancelled := active.(autoRenew := false, cancelledAt := Some(now));
    var expired := cancelled.(status := Expired);
    var revived := expired.(cycle := cycle, startsAt := end, renewsAt := NextRenewal(end, cycle), status := Active);
    [INITIAL_SYSTEM, OneRow(active, map[]), OneRow(cancelled, map[]), OneRow(cancelled, map[0 := Idle]),
     OneRow(cancelled, map[0 := Expiring([Due(0, end)])]), OneRow(expired, map[0 := Expiring([])]),
     OneRow(revived, map[0 := Expiring([])])]
  }

  lemma RevivalTraces(customer: nat, cycle: BillingCycle, now: int)
    requires Supported(now)
    ensures Traces(RevivalRun(customer, cycle, now), RevivalTrace(customer, cycle, now))
  {
    hide NextRenewal, Supported, CanAct, Perform;
    var active := Subscribed(customer, cycle, now);
    var cancelled := active.(autoRenew := false, cancelledAt := Some(now));
    FirstSubscription(customer, cycle, now);
    CancelOne(active, now);
    StartFirst(OneRow(cancelled, map[]).store);
    ExpireOne(cancelled);
    MoveOne(cancelled.(status := Expired), map[0 := Expiring([])], cycle, NextRenewal(now, cycle));
  }

  /** An expired subscription can be active again. */
  lemma ExpiredCanBeRevived(customer: nat, cycle: BillingCycle, now: int)
    requires Supported(now)
    ensures var acts := RevivalRun(customer, cycle, now);
            ValidActs(INITIAL_SYSTEM, acts)
            && (var before := AfterActs(INITIAL_SYSTEM, acts[..5]).store;
                EndedIn(before, 0) && before.subscriptions[0].status == Expired)
            && (var after := AfterActs(INITIAL_SYSTEM, acts).store;
                LiveFor(after, customer, 0))
  {
    hide NextRenewal, Supported, Traces, ValidActs, AfterActs;
    var acts, trace := RevivalRun(customer, cycle, now), RevivalTrace(customer, cycle, now);
    RevivalTraces(customer, cycle, now);
    TraceIsARun(acts, trace, 5);
    TraceIsARun(acts, trace, 6);
    assert acts[..6] == acts;
  }
}
