/**
 Any number of workers renewing, expiring and re-assessing at once, with crashes between any two
 database steps (backend/src/plans/renewals.service.ts, backend/src/plans/subscriptions.service.ts).

 A worker's program counter is its task; an event is one atomic database step of one worker, or a write
 by somebody else. A run is any sequence of enabled events.
 */
module RenewalProtocol {
  import opened Options
  import opened Calendar
  import opened Billing
  import opened Renewal

  /** A row as a sweep listed it. */
  datatype Due = Due(subscription: nat, renewsAt: int)

  datatype Assessed = Assessed(subscription: nat, seen: Status, owes: bool)

  datatype Task =
    | Idle
    | Sweeping(todo: seq<Due>)
    | Reading(subscription: nat, pin: Option<int>, todo: seq<Due>)
    | Issuing(subscription: nat, customer: nat, periodStart: int, renewsAt: int, todo: seq<Due>)
    | Recovering(subscription: nat, periodStart: int, renewsAt: int, todo: seq<Due>)
    | Advancing(subscription: nat, periodStart: int, renewsAt: int, todo: seq<Due>)
    | Expiring(rows: seq<Due>)
    | Reassessing(assessed: seq<Assessed>)

  datatype System = System(store: Store, tasks: map<nat, Task>)

  datatype Event =
    // a sweep
    | ListDue(worker: nat, now: int, rows: seq<Due>)
    | TakeRow(worker: nat)
    | ListExpired(worker: nat, now: int, expired: seq<Due>)
    | ExpireRow(worker: nat)
    | ListArrears(worker: nat, now: int, assessed: seq<Assessed>)
    | ReassessRow(worker: nat)
    // a renewal
    | RenewByHand(worker: nat, subscription: nat)
    | ReadRow(worker: nat)
    | Issue(worker: nat, now: int)
    | Recover(worker: nat)
    | Advance(worker: nat)
    | Fail(worker: nat)
    | Crash(worker: nat)
    // everybody else
    | StartWorker(worker: nat)
    | Subscribe(customer: nat, cycle: BillingCycle, now: int, missed: set<nat>)
    | Cancel(subscription: nat, now: int)
    | IssueOther(customer: nat, dueAt: Option<int>, now: int)
    | VoidInvoice(invoice: nat)
    | PayInvoice(invoice: nat)
    | CreditInvoice(invoice: nat, now: int)

  predicate IsDue(st: Store, row: Due, now: int) {
    row.subscription < |st.subscriptions|
    && var s := st.subscriptions[row.subscription];
    Live(s.status) && s.autoRenew && s.renewsAt == row.renewsAt && row.renewsAt <= now
  }

  predicate IsRunOut(st: Store, row: Due, now: int) {
    row.subscription < |st.subscriptions|
    && var s := st.subscriptions[row.subscription];
    Live(s.status) && s.cancelledAt.Some? && !s.autoRenew && s.renewsAt == row.renewsAt && row.renewsAt <= now
  }

  predicate Owes(st: Store, customer: nat, now: int) {
    exists i :: 0 <= i < |st.invoices| && st.invoices[i].draft.customer == customer && st.invoices[i].status == Issued
                && st.invoices[i].draft.dueAt.Some? && st.invoices[i].draft.dueAt.value < now
  }

  /** A live row and the status it has. */
  predicate IsSeen(st: Store, row: Assessed) {
    row.subscription < |st.subscriptions|
    && var s := st.subscriptions[row.subscription];
    Live(s.status) && s.status == row.seen
  }

  function TaskOf(sys: System, worker: nat): Task {
    if worker in sys.tasks then sys.tasks[worker] else Idle
  }

  predicate Enabled(sys: System, e: Event) {
    match e
    case ListDue(w, now, rows) =>
      w in sys.tasks && sys.tasks[w].Idle? && forall r :: r in rows ==> IsDue(sys.store, r, now)
    case TakeRow(w) => TaskOf(sys, w).Sweeping?
    case ListExpired(w, now, rows) =>
      w in sys.tasks && sys.tasks[w].Idle? && forall r :: r in rows ==> IsRunOut(sys.store, r, now)
    case ExpireRow(w) => TaskOf(sys, w).Expiring?
    // Who owes was read before the rows were, so it may be out of date by now.
    case ListArrears(w, _, rows) =>
      w in sys.tasks && sys.tasks[w].Idle? && forall r :: r in rows ==> IsSeen(sys.store, r)
    case ReassessRow(w) => TaskOf(sys, w).Reassessing?
    case RenewByHand(w, _) => w in sys.tasks && sys.tasks[w].Idle?
    case ReadRow(w) => TaskOf(sys, w).Reading?
    case Issue(w, _) => TaskOf(sys, w).Issuing?
    case Recover(w) => TaskOf(sys, w).Recovering?
    case Advance(w) => TaskOf(sys, w).Advancing?
    case Fail(w) => var t := TaskOf(sys, w); t.Reading? || t.Issuing? || t.Recovering? || t.Advancing?
    case Crash(w) => w in sys.tasks
    case StartWorker(w) => w !in sys.tasks
    case Subscribe(_, _, now, _) => Supported(now)
    case Cancel(id, _) => id < |sys.store.subscriptions|
    case IssueOther(_, _, _) => true
    case VoidInvoice(id) => id < |sys.store.invoices|
    case PayInvoice(id) => id < |sys.store.invoices| && sys.store.invoices[id].status == Issued
    case CreditInvoice(id, _) => id < |sys.store.invoices| && sys.store.invoices[id].draft.kind == TaxInvoice
  }

  /** The next task and store of a worker that takes one step of a renewal. */
  function RenewalStepOf(st: Store, t: Task, e: Event): (Store, Task) {
    match t
    case Reading(id, pin, todo) =>
      var r := ReadForRenewal(st, id, pin);
      (st, if r.Renewable? then Issuing(id, r.customer, r.periodStart, r.renewsAt, todo) else Sweeping(todo))
    case Issuing(id, customer, periodStart, renewsAt, todo) =>
      if e.Issue? then
        var (after, result) := IssueIn(st, RenewalDraft(customer, id, periodStart), e.now);
        (after, if result.Numbered? then Advancing(id, periodStart, renewsAt, todo)
                else if result == DuplicatePeriod then Recovering(id, periodStart, renewsAt, todo)
                else Sweeping(todo))
      else (st, t)
    case Recovering(id, periodStart, renewsAt, todo) =>
      (st, if PeriodTaken(st.invoices, Some(Period(id, periodStart)))
           then Advancing(id, periodStart, renewsAt, todo) else Sweeping(todo))
    case Advancing(id, periodStart, renewsAt, todo) =>
      (AdvanceIn(st, id, periodStart, renewsAt), Sweeping(todo))
    case _ => (st, t)
  }

  function WorkerStep(st: Store, t: Task, e: Event): (Store, Task) {
    match e
    case ListDue(_, _, rows) => (st, Sweeping(rows))
    case TakeRow(_) =>
      if t.Sweeping? && t.todo != [] then (st, Reading(t.todo[0].subscription, Some(t.todo[0].renewsAt), t.todo[1..]))
      else (st, Idle)
    case ListExpired(_, _, rows) => (st, Expiring(rows))
    case ExpireRow(_) =>
      if t.Expiring? && t.rows != []
      then (ExpireIn(st, t.rows[0].subscription, t.rows[0].renewsAt), Expiring(t.rows[1..]))
      else (st, Idle)
    case ListArrears(_, _, rows) => (st, Reassessing(rows))
    case ReassessRow(_) =>
      if t.Reassessing? && t.assessed != [] then
        (ReassessIn(st, t.assessed[0].subscription, t.assessed[0].seen, t.assessed[0].owes),
            Reassessing(t.assessed[1..]))
      else (st, Idle)
    case RenewByHand(_, id) => (st, Reading(id, None, []))
    case Fail(_) =>
      (st, match t
           case Reading(_, _, todo) => Sweeping(todo)
           case Issuing(_, _, _, _, todo) => Sweeping(todo)
           case Recovering(_, _, _, todo) => Sweeping(todo)
           case Advancing(_, _, _, todo) => Sweeping(todo)
           case _ => t)
    case Crash(_) => (st, Idle)
    case StartWorker(_) => (st, Idle)
    case _ => RenewalStepOf(st, t, e)
  }

  /** The effect of a write that belongs to no worker. What its caller checked in an earlier read, such as
      that an invoice is not paid, may have changed by then, so it is not asked for here. */
  function OtherStep(st: Store, e: Event): Store {
    match e
    case Subscribe(customer, cycle, now, missed) => SubscribeIn(st, customer, cycle, now, missed)
    case Cancel(id, now) => if id < |st.subscriptions| then CancelIn(st, id, now) else st
    case IssueOther(customer, dueAt, now) => IssueIn(st, Draft(customer, TaxInvoice, None, None, dueAt), now).0
    case VoidInvoice(id) => if id < |st.invoices| then SetInvoiceStatus(st, id, Void) else st
    case PayInvoice(id) => if id < |st.invoices| then SetInvoiceStatus(st, id, Paid) else st
    case CreditInvoice(id, now) =>
      if id < |st.invoices|
      then IssueIn(st, Draft(st.invoices[id].draft.customer, CreditNote, None, Some(id), None), now).0
      else st
    case _ => st
  }

  predicate ByWorker(e: Event) {
    !(e.Subscribe? || e.Cancel? || e.IssueOther? || e.VoidInvoice? || e.PayInvoice? || e.CreditInvoice?)
  }

  function Apply(sys: System, e: Event): System {
    if ByWorker(e) then
      var (st, t) := WorkerStep(sys.store, TaskOf(sys, e.worker), e);
      System(st, sys.tasks[e.worker := t])
    else
      sys.(store := OtherStep(sys.store, e))
  }

  predicate ValidRun(sys: System, events: seq<Event>)
    decreases |events|
  {
    events == [] || (Enabled(sys, events[0]) && ValidRun(Apply(sys, events[0]), events[1..]))
  }

  function AfterRun(sys: System, events: seq<Event>): System
    decreases |events|
  {
    if events == [] then sys else AfterRun(Apply(sys, events[0]), events[1..])
  }

  const EMPTY_STORE := Store([], [], map[])

  const INITIAL_SYSTEM := System(EMPTY_STORE, map[])

  /** A worker can die wherever it is, and leaves the tables as they are; and any step of a renewal can fail, after
      which the sweep goes on with the next row. */
  lemma AnybodyCanDie(sys: System, w: nat)
    requires w in sys.tasks
    ensures Enabled(sys, Crash(w)) && Apply(sys, Crash(w)) == System(sys.store, sys.tasks[w := Idle])
    ensures var t := sys.tasks[w];
            t.Reading? || t.Issuing? || t.Recovering? || t.Advancing? ==>
              Enabled(sys, Fail(w)) && Apply(sys, Fail(w)) == System(sys.store, sys.tasks[w := Sweeping(t.todo)])
  {
  }

  // ---------- Exactly-once billing ----------

  /** What a worker in the middle of a renewal knows, however stale its reading. */
  ghost predicate TaskInv(st: Store, t: Task) {
    match t
    case Issuing(id, _, periodStart, renewsAt, _) => ReadEarlier(st, id, periodStart, renewsAt)
    case Recovering(id, periodStart, renewsAt, _) =>
      ReadEarlier(st, id, periodStart, renewsAt) && CountPeriod(st.invoices, Period(id, periodStart)) > 0
    case Advancing(id, periodStart, renewsAt, _) =>
      ReadEarlier(st, id, periodStart, renewsAt) && CountPeriod(st.invoices, Period(id, periodStart)) > 0
    case Reassessing(rows) => forall r :: r in rows ==> Live(r.seen)
    case _ => true
  }

  ghost predicate Inv(sys: System) {
    StoreInv(sys.store) && forall w :: w in sys.tasks ==> TaskInv(sys.store, sys.tasks[w])
  }

  lemma TaskInvLasts(st: Store, after: Store, t: Task)
    requires TaskInv(st, t) && Later(st, after)
    ensures TaskInv(after, t)
  {
    hide ReadEarlier, Later;
    if t.Issuing? || t.Recovering? || t.Advancing? {
      ReadEarlierLasts(st, after, t.subscription, t.periodStart, t.renewsAt);
    }
    if t.Recovering? || t.Advancing? {
      LaterCounts(st, after, Period(t.subscription, t.periodStart));
    }
  }

  lemma LaterCounts(st: Store, after: Store, p: Period)
    requires Later(st, after)
    ensures CountPeriod(st.invoices, p) <= CountPeriod(after.invoices, p)
  {
  }

  lemma RenewalStepKeeps(st: Store, t: Task, e: Event)
    requires StoreInv(st) && TaskInv(st, t)
    ensures var (after, next) := RenewalStepOf(st, t, e);
            StoreInv(after) && Later(st, after) && TaskInv(after, next)
  {
    hide Gapless, ExactlyOnce, ReadEarlier, Later, ReadForRenewal, AdvanceIn, IssueIn;
    LaterIsReflexive(st);
    match t
    case Reading(id, pin, todo) =>
      ReadIsEarlier(st, id, pin);
    case Issuing(id, customer, periodStart, renewsAt, todo) =>
      if e.Issue? {
        var draft := RenewalDraft(customer, id, periodStart);
        IssueKeepsExactlyOnce(st, draft, renewsAt, e.now);
        ReadEarlierLasts(st, IssueIn(st, draft, e.now).0, id, periodStart, renewsAt);
      }
    case Recovering(id, periodStart, renewsAt, todo) =>
      CountIsZeroIff(st.invoices, Period(id, periodStart));
    case Advancing(id, periodStart, renewsAt, todo) =>
      AdvanceKeepsExactlyOnce(st, id, periodStart, renewsAt);
    case _ =>
  }

  lemma LaterIsReflexive(st: Store)
    ensures Later(st, st)
  {
  }

  lemma WorkerStepKeeps(st: Store, t: Task, e: Event)
    requires StoreInv(st) && TaskInv(st, t)
    requires e.ListArrears? ==> forall r :: r in e.assessed ==> Live(r.seen)
    ensures var (after, next) := WorkerStep(st, t, e);
            StoreInv(after) && Later(st, after) && TaskInv(after, next)
  {
    hide StoreInv, ReadEarlier, Later, RenewalStepOf;
    LaterIsReflexive(st);
    match e
    case ExpireRow(_) =>
      if t.Expiring? && t.rows != [] {
        ExpireKeeps(st, t.rows[0].subscription, t.rows[0].renewsAt);
      }
    case ReassessRow(_) =>
      if t.Reassessing? && t.assessed != [] {
        ReassessKeeps(st, t.assessed[0].subscription, t.assessed[0].seen, t.assessed[0].owes);
      }
    case ListDue(_, _, _) =>
    case TakeRow(_) =>
    case ListExpired(_, _, _) =>
    case ListArrears(_, _, _) =>
    case RenewByHand(_, _) =>
    case Fail(_) =>
    case Crash(_) =>
    case StartWorker(_) =>
    case _ =>
      RenewalStepKeeps(st, t, e);
  }

  lemma ExpireKeeps(st: Store, id: nat, renewsAt: int)
    requires StoreInv(st)
    ensures StoreInv(ExpireIn(st, id, renewsAt)) && Later(st, ExpireIn(st, id, renewsAt))
  {
    hide StoreInv, Later;
    StatusStepKeeps(st, ExpireIn(st, id, renewsAt));
  }

  lemma ReassessKeeps(st: Store, id: nat, seen: Status, owes: bool)
    requires StoreInv(st)
    ensures StoreInv(ReassessIn(st, id, seen, owes)) && Later(st, ReassessIn(st, id, seen, owes))
  {
    hide StoreInv, Later;
    StatusStepKeeps(st, ReassessIn(st, id, seen, owes));
  }

  lemma OtherStepKeeps(st: Store, e: Event)
    requires StoreInv(st) && (e.Subscribe? ==> Supported(e.now))
    ensures StoreInv(OtherStep(st, e)) && Later(st, OtherStep(st, e))
  {
    hide StoreInv, Later, Supported, SubscribeIn, IssueIn;
    LaterIsReflexive(st);
    match e
    case Subscribe(customer, cycle, now, missed) => SubscribeKeeps(st, customer, cycle, now, missed);
    case Cancel(id, now) =>
      if id < |st.subscriptions| {
        StatusStepKeeps(st, CancelIn(st, id, now));
      }
    case IssueOther(customer, dueAt, now) =>
      IssueKeepsExactlyOnce(st, Draft(customer, TaxInvoice, None, None, dueAt), 0, now);
    case VoidInvoice(id) =>
      if id < |st.invoices| {
        StatusStepKeeps(st, SetInvoiceStatus(st, id, Void));
      }
    case PayInvoice(id) =>
      if id < |st.invoices| {
        StatusStepKeeps(st, SetInvoiceStatus(st, id, Paid));
      }
    case CreditInvoice(id, now) =>
      if id < |st.invoices| {
        IssueKeepsExactlyOnce(st, Draft(st.invoices[id].draft.customer, CreditNote, None, Some(id), None), 0, now);
      }
    case _ =>
  }

  lemma StepKeepsInv(sys: System, e: Event)
    requires Inv(sys) && Enabled(sys, e)
    ensures Inv(Apply(sys, e)) && Later(sys.store, Apply(sys, e).store)
  {
    hide StoreInv, TaskInv, Later, WorkerStep, OtherStep, Supported, IsDue, IsRunOut, IsSeen;
    var after := Apply(sys, e);
    if ByWorker(e) {
      IdleTaskInv(sys.store);
      if e.ListArrears? {
        AssessedAreLive(sys, e);
      }
      WorkerStepKeeps(sys.store, TaskOf(sys, e.worker), e);
    } else {
      OtherStepKeeps(sys.store, e);
    }
    forall w | w in after.tasks && !(ByWorker(e) && w == e.worker)
      ensures TaskInv(after.store, after.tasks[w])
    {
      TaskInvLasts(sys.store, after.store, sys.tasks[w]);
    }
  }

  lemma AssessedAreLive(sys: System, e: Event)
    requires e.ListArrears? && Enabled(sys, e)
    ensures forall r :: r in e.assessed ==> Live(r.seen)
  {
    hide Owes;
  }

  lemma IdleTaskInv(st: Store)
    ensures TaskInv(st, Idle)
  {
  }

  /** Every reachable state keeps the invariant. */
  lemma {:induction false} RunKeepsInv(sys: System, events: seq<Event>)
    requires Inv(sys) && ValidRun(sys, events)
    ensures Inv(AfterRun(sys, events))
    decreases |events|
  {
    hide Inv, Enabled, Apply;
    if events != [] {
      StepKeepsInv(sys, events[0]);
      RunKeepsInv(Apply(sys, events[0]), events[1..]);
    }
  }

  lemma InitialInv()
    ensures Inv(INITIAL_SYSTEM)
  {
  }

  /** Exactly-once billing, over every interleaving of any number of workers: each subscription stands at
      some anniversary of its start, every earlier one has exactly one invoice row, that one at most one,
      and no other date has any; and no row bills a subscription there is not. */
  lemma ExactlyOnceBilling(events: seq<Event>)
    requires ValidRun(INITIAL_SYSTEM, events)
    ensures ExactlyOnce(AfterRun(INITIAL_SYSTEM, events).store)
  {
    hide ExactlyOnce, Gapless, TaskInv, Apply, Enabled;
    InitialInv();
    RunKeepsInv(INITIAL_SYSTEM, events);
  }

  /** Rule 46(b) of the CGST Rules, over the same runs: each financial year's serials are 1, 2, ... up to its
      counter, whatever was refused, voided, credited or abandoned half way. */
  lemma GaplessNumbering(events: seq<Event>, year: int)
    requires ValidRun(INITIAL_SYSTEM, events)
    ensures var st := AfterRun(INITIAL_SYSTEM, events).store;
            SerialsOf(st.invoices, year) == UpTo(Counter(st, year))
  {
    hide ExactlyOnce, TaskInv, Apply, Enabled, SerialsOf, UpTo, Counter;
    InitialInv();
    RunKeepsInv(INITIAL_SYSTEM, events);
  }

  // ---------- Catching up, whatever the schedule ----------

  /** An event of a run in which nobody renews by hand and no sweep looks beyond `horizon`. */
  predicate Unattended(e: Event, horizon: int) {
    !e.RenewByHand? && (e.ListDue? ==> e.now <= horizon)
  }

  /** Everything invoiced, and everything a worker is about to invoice, is due by `horizon`. */
  ghost predicate NotAhead(sys: System, horizon: int) {
    && (forall p :: CountPeriod(sys.store.invoices, p) > 0 ==> p.start <= horizon)
    && (forall w :: w in sys.tasks ==> TaskNotAhead(sys.tasks[w], horizon))
  }

  predicate RowsNotAhead(rows: seq<Due>, horizon: int) {
    forall r :: r in rows ==> r.renewsAt <= horizon
  }

  predicate TaskNotAhead(t: Task, horizon: int) {
    match t
    case Sweeping(todo) => RowsNotAhead(todo, horizon)
    case Reading(_, pin, todo) => pin.Some? && pin.value <= horizon && RowsNotAhead(todo, horizon)
    case Issuing(_, _, periodStart, _, todo) => periodStart <= horizon && RowsNotAhead(todo, horizon)
    case Recovering(_, periodStart, _, todo) => periodStart <= horizon && RowsNotAhead(todo, horizon)
    case Advancing(_, periodStart, _, todo) => periodStart <= horizon && RowsNotAhead(todo, horizon)
    case _ => true
  }

  lemma IssueNotAhead(st: Store, draft: Draft, now: int, horizon: int, p: Period)
    requires Gapless(st)
    requires CountPeriod(st.invoices, p) > 0 ==> p.start <= horizon
    requires draft.period.Some? ==> draft.period.value.start <= horizon
    ensures CountPeriod(IssueIn(st, draft, now).0.invoices, p) > 0 ==> p.start <= horizon
  {
    hide Gapless, IssueIn, CountPeriod;
    IssueKeepsGapless(st, draft, now);
    IssueCounts(st, draft, now, p);
  }

  lemma WorkerStepNotAhead(sys: System, e: Event, horizon: int)
    requires ByWorker(e) && Enabled(sys, e) && Unattended(e, horizon)
    requires TaskNotAhead(TaskOf(sys, e.worker), horizon)
    ensures TaskNotAhead(WorkerStep(sys.store, TaskOf(sys, e.worker), e).1, horizon)
  {
    hide IssueIn, IsRunOut, IsSeen, AdvanceIn, ExpireIn, ReassessIn, PeriodTaken;
  }

  lemma WorkerStepInvoices(sys: System, e: Event)
    requires ByWorker(e)
    ensures var after, t := WorkerStep(sys.store, TaskOf(sys, e.worker), e).0, TaskOf(sys, e.worker);
            if e.Issue? && t.Issuing?
            then after == IssueIn(sys.store, RenewalDraft(t.customer, t.subscription, t.periodStart), e.now).0
            else after.invoices == sys.store.invoices
  {
    hide IssueIn, IsRunOut, IsSeen, PeriodTaken;
  }

  lemma OtherStepInvoices(st: Store, e: Event, horizon: int, p: Period)
    requires Gapless(st) && !ByWorker(e)
    requires CountPeriod(st.invoices, p) > 0 ==> p.start <= horizon
    ensures CountPeriod(OtherStep(st, e).invoices, p) > 0 ==> p.start <= horizon
  {
    hide IssueIn, CountPeriod, Gapless;
    match e
    case Subscribe(_, _, _, _) =>
    case Cancel(_, _) =>
    case IssueOther(customer, dueAt, now) =>
      IssueNotAhead(st, Draft(customer, TaxInvoice, None, None, dueAt), now, horizon, p);
    case VoidInvoice(id) =>
      if id < |st.invoices| {
        StatusDoesNotCount(st.invoices, SetInvoiceStatus(st, id, Void).invoices, p, 0);
      }
    case PayInvoice(id) =>
      if id < |st.invoices| {
        StatusDoesNotCount(st.invoices, SetInvoiceStatus(st, id, Paid).invoices, p, 0);
      }
    case CreditInvoice(id, now) =>
      if id < |st.invoices| {
        IssueNotAhead(st, Draft(st.invoices[id].draft.customer, CreditNote, None, Some(id), None), now, horizon, p);
      }
  }

  lemma StepNotAhead(sys: System, e: Event, horizon: int)
    requires Inv(sys) && Enabled(sys, e) && Unattended(e, horizon) && NotAhead(sys, horizon)
    ensures NotAhead(Apply(sys, e), horizon)
  {
    hide Gapless, ExactlyOnce, TaskInv, Enabled, WorkerStep, OtherStep, IssueIn, CountPeriod, TaskNotAhead, Unattended;
    var after := Apply(sys, e);
    if ByWorker(e) {
      var t := TaskOf(sys, e.worker);
      assert TaskNotAhead(t, horizon) by { IdleNotAhead(horizon); }
      WorkerStepNotAhead(sys, e, horizon);
      WorkerStepInvoices(sys, e);
      forall p | CountPeriod(after.store.invoices, p) > 0
        ensures p.start <= horizon
      {
        if e.Issue? && t.Issuing? {
          IssuingNotAhead(t, horizon);
          IssueNotAhead(sys.store, RenewalDraft(t.customer, t.subscription, t.periodStart), e.now, horizon, p);
        }
      }
    } else {
      forall p | CountPeriod(after.store.invoices, p) > 0
        ensures p.start <= horizon
      {
        OtherStepInvoices(sys.store, e, horizon, p);
      }
    }
  }

  lemma IdleNotAhead(horizon: int)
    ensures TaskNotAhead(Idle, horizon)
  {
  }

  lemma IssuingNotAhead(t: Task, horizon: int)
    requires t.Issuing? && TaskNotAhead(t, horizon)
    ensures t.periodStart <= horizon
  {
  }

  lemma {:induction false} RunNotAhead(sys: System, events: seq<Event>, horizon: int)
    requires Inv(sys) && NotAhead(sys, horizon) && ValidRun(sys, events)
    requires forall e :: e in events ==> Unattended(e, horizon)
    ensures Inv(AfterRun(sys, events)) && NotAhead(AfterRun(sys, events), horizon)
    decreases |events|
  {
    hide Inv, NotAhead, Enabled, Apply, Unattended;
    if events != [] {
      StepKeepsInv(sys, events[0]);
      StepNotAhead(sys, events[0], horizon);
      RunNotAhead(Apply(sys, events[0]), events[1..], horizon);
    }
  }

  /** `start` is an anniversary of `s`, not its start, and has come by `horizon`. */
  ghost predicate HasComeDue(s: Subscription, start: int, horizon: int) {
    start <= horizon && exists j :: j >= 1 && PeriodDate(s, j) == start
  }

  lemma CaughtUpIsExact(sys: System, horizon: int, id: nat, start: int)
    requires Inv(sys) && NotAhead(sys, horizon)
    requires id < |sys.store.subscriptions| && sys.store.subscriptions[id].renewsAt > horizon
    ensures CountPeriod(sys.store.invoices, Period(id, start))
            == if HasComeDue(sys.store.subscriptions[id], start, horizon) then 1 else 0
  {
    hide Gapless, TaskInv, TaskNotAhead, Anniversary, Supported, CountPeriod;
    var s := sys.store.subscriptions[id];
    assert Billed(sys.store, id);
    var k :| BilledUpTo(sys.store, id, k);
    if CountPeriod(sys.store.invoices, Period(id, start)) > 0 {
      var j :| 1 <= j <= k && PeriodDate(s, j) == start;
    }
    if HasComeDue(s, start, horizon) {
      var j :| j >= 1 && PeriodDate(s, j) == start;
      if k < j {
        AnniversariesIncrease(s.startsAt, s.cycle, k, j);
      }
      assert 1 <= j < k;
    }
  }

  /** However the sweeps were timed, batched, interrupted and interleaved, once a subscription's date has
      passed `horizon` its invoiced periods are exactly the anniversaries up to `horizon`, each once. */
  lemma CatchUpIsScheduleIndependent(events: seq<Event>, horizon: int, id: nat, start: int)
    requires ValidRun(INITIAL_SYSTEM, events)
    requires forall e :: e in events ==> Unattended(e, horizon)
    requires id < |AfterRun(INITIAL_SYSTEM, events).store.subscriptions|
    requires AfterRun(INITIAL_SYSTEM, events).store.subscriptions[id].renewsAt > horizon
    ensures CountPeriod(AfterRun(INITIAL_SYSTEM, events).store.invoices, Period(id, start))
            == if HasComeDue(AfterRun(INITIAL_SYSTEM, events).store.subscriptions[id], start, horizon) then 1 else 0
  {
    hide Inv, Apply, Enabled, Unattended, HasComeDue;
    InitialInv();
    RunNotAhead(INITIAL_SYSTEM, events, horizon);
    CaughtUpIsExact(AfterRun(INITIAL_SYSTEM, events), horizon, id, start);
  }
}
