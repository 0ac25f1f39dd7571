/**
 Sweeps that run at the same time (backend/src/plans/renewals.service.ts:23-33): whatever the others do, a worker
 that gets to the end of its list leaves nothing on it undone.
 */
module Progress {
  import opened Options
  import opened Calendar
  import opened Billing
  import opened Renewal
  import opened RenewalProtocol
  import opened PlanChanges

  /** A listed row has been renewed past the date it was listed with, by whomever, or has ended. */
  predicate IsDealtWith(st: Store, row: Due) {
    row.subscription < |st.subscriptions|
    && var s := st.subscriptions[row.subscription];
    row.renewsAt < s.renewsAt || Ended(s.status)
  }

  /** A row listed at some time: its date can only have moved on since. */
  predicate WasListed(st: Store, row: Due) {
    row.subscription < |st.subscriptions| && row.renewsAt <= st.subscriptions[row.subscription].renewsAt
  }

  /** The rows a worker still has to deal with, the one in hand first. */
  function Remaining(t: Task): seq<Due> {
    match t
    case Sweeping(todo) => todo
    case Reading(id, pin, todo) => (if pin.Some? then [Due(id, pin.value)] else []) + todo
    case Issuing(id, _, periodStart, _, todo) => [Due(id, periodStart)] + todo
    case Recovering(id, periodStart, _, todo) => [Due(id, periodStart)] + todo
    case Advancing(id, periodStart, _, todo) => [Due(id, periodStart)] + todo
    case _ => []
  }

  predicate IsInHand(st: Store, t: Task, row: Due) {
    WasListed(st, row) && (IsDealtWith(st, row) || row in Remaining(t))
  }

  /** The worker gives up, or dies. */
  predicate GivesUp(e: Event, w: nat) {
    (e.Fail? || e.Crash?) && e.worker == w
  }

  // ---------- What others do ----------

  /** Dates only move on, and what has ended stays ended. */
  ghost predicate MovesOn(st: Store, after: Store) {
    Later(st, after)
    && forall id: nat :: EndedIn(st, id) ==> EndedIn(after, id)
  }

  lemma DealtWithLasts(st: Store, after: Store, row: Due)
    requires MovesOn(st, after)
    ensures WasListed(st, row) ==> WasListed(after, row)
    ensures IsDealtWith(st, row) ==> IsDealtWith(after, row)
  {
    if Later(st, after) && row.subscription < |st.subscriptions| {
      assert EndedIn(st, row.subscription) ==> EndedIn(after, row.subscription);
    }
  }

  lemma LiveTasks(sys: System)
    requires Inv(sys)
    ensures AllSawLive(sys)
  {
    hide StoreInv, ReadEarlier;
  }

  lemma StepMovesOn(sys: System, e: Event)
    requires Inv(sys) && Enabled(sys, e)
    ensures MovesOn(sys.store, Apply(sys, e).store)
  {
    hide Inv, Enabled, Apply, Later, AllSawLive;
    StepKeepsInv(sys, e);
    LiveTasks(sys);
    forall id: nat | EndedIn(sys.store, id)
      ensures EndedIn(Apply(sys, e).store, id)
    {
      EndedChangesIff(sys, Step(e), id);
    }
  }

  // ---------- What the worker does ----------

  /** Reading again loses a row only when it has ended or moved on. */
  lemma ReadingKeeps(st: Store, id: nat, pin: Option<int>, todo: seq<Due>, row: Due)
    requires IsInHand(st, Reading(id, pin, todo), row)
    ensures var r := ReadForRenewal(st, id, pin);
            IsInHand(st, if r.Renewable? then Issuing(id, r.customer, r.periodStart, r.renewsAt, todo)
                         else Sweeping(todo), row)
  {
    hide RenewalDateAfter;
  }

  /** After the compare-and-swap the row has moved on, whoever moved it. */
  lemma AdvancingKeeps(st: Store, id: nat, periodStart: int, renewsAt: int, todo: seq<Due>, row: Due)
    requires StoreInv(st) && ReadEarlier(st, id, periodStart, renewsAt)
    requires CountPeriod(st.invoices, Period(id, periodStart)) > 0
    requires IsInHand(st, Advancing(id, periodStart, renewsAt, todo), row)
    requires MovesOn(st, AdvanceIn(st, id, periodStart, renewsAt))
    ensures IsInHand(AdvanceIn(st, id, periodStart, renewsAt), Sweeping(todo), row)
  {
    hide Gapless, ReadEarlier, CountPeriod, MovesOn, BilledUpTo, Supported;
    var after := AdvanceIn(st, id, periodStart, renewsAt);
    DealtWithLasts(st, after, row);
    if row == Due(id, periodStart) && st.subscriptions[id].renewsAt == periodStart {
      assert Billed(st, id);
      var k :| BilledUpTo(st, id, k);
      AdvanceKeepsBilled(st, id, k, periodStart, renewsAt);
    }
  }

  lemma OwnStepKeeps(sys: System, e: Event, w: nat, row: Due)
    requires Inv(sys) && Enabled(sys, e) && ByWorker(e) && e.worker == w && w in sys.tasks && !GivesUp(e, w)
    requires IsInHand(sys.store, sys.tasks[w], row)
    ensures IsInHand(Apply(sys, e).store, Apply(sys, e).tasks[w], row)
  {
    hide StoreInv, ReadEarlier, MovesOn, ReadForRenewal, AdvanceIn, IssueIn, IsDealtWith, WasListed, IsDue, IsRunOut,
      IsSeen, PeriodTaken, CountPeriod, ExpireIn, ReassessIn;
    var st, t := sys.store, sys.tasks[w];
    StepMovesOn(sys, e);
    DealtWithLasts(st, Apply(sys, e).store, row);
    match t
    case Reading(id, pin, todo) => ReadingKeeps(st, id, pin, todo, row);
    case Issuing(id, customer, periodStart, renewsAt, todo) =>
      NumbersDoNotClash(st, RenewalDraft(customer, id, periodStart), e);
    case Recovering(id, periodStart, renewsAt, todo) => CountedIsTaken(st, Period(id, periodStart));
    case Advancing(id, periodStart, renewsAt, todo) => AdvancingKeeps(st, id, periodStart, renewsAt, todo, row);
    case _ =>
  }

  lemma CountedIsTaken(st: Store, p: Period)
    requires CountPeriod(st.invoices, p) > 0
    ensures PeriodTaken(st.invoices, Some(p))
  {
    hide CountPeriod;
    CountIsZeroIff(st.invoices, p);
  }

  lemma NumbersDoNotClash(st: Store, draft: Draft, e: Event)
    requires StoreInv(st)
    ensures e.Issue? ==> IssueIn(st, draft, e.now).1 != DuplicateNumber
  {
    hide Gapless, ExactlyOnce;
    if e.Issue? {
      IssueKeepsGapless(st, draft, e.now);
    }
  }

  // ---------- Runs ----------

  lemma StepKeepsInHand(sys: System, e: Event, w: nat, row: Due)
    requires Inv(sys) && Enabled(sys, e) && w in sys.tasks && !GivesUp(e, w)
    requires IsInHand(sys.store, sys.tasks[w], row)
    ensures w in Apply(sys, e).tasks && IsInHand(Apply(sys, e).store, Apply(sys, e).tasks[w], row)
  {
    if ByWorker(e) && e.worker == w {
      OwnStepKeeps(sys, e, w, row);
    } else {
      hide Inv, MovesOn, Remaining, IsDealtWith, WasListed, WorkerStep, OtherStep, Enabled;
      StepMovesOn(sys, e);
      DealtWithLasts(sys.store, Apply(sys, e).store, row);
    }
  }

  lemma {:induction false} RunKeepsInHand(sys: System, events: seq<Event>, w: nat, row: Due)
    requires Inv(sys) && ValidRun(sys, events) && forall e :: e in events ==> !GivesUp(e, w)
    requires w in sys.tasks && IsInHand(sys.store, sys.tasks[w], row)
    ensures var after := AfterRun(sys, events);
            w in after.tasks && IsInHand(after.store, after.tasks[w], row)
    decreases |events|
  {
    hide Inv, Enabled, Apply, IsInHand, GivesUp;
    if events != [] {
      StepKeepsInv(sys, events[0]);
      StepKeepsInHand(sys, events[0], w, row);
      RunKeepsInHand(Apply(sys, events[0]), events[1..], w, row);
    }
  }

  lemma DueWasListed(st: Store, row: Due, now: int)
    requires IsDue(st, row, now)
    ensures WasListed(st, row)
  {
  }

  lemma ListingPutsInHand(sys: System, w: nat, now: int, rows: seq<Due>, row: Due)
    requires Enabled(sys, ListDue(w, now, rows)) && row in rows
    ensures var after := Apply(sys, ListDue(w, now, rows));
            w in after.tasks && IsInHand(after.store, after.tasks[w], row)
  {
    hide IsDue, WasListed;
    DueWasListed(sys.store, row, now);
  }

  /** Instances sweeping at the same time converge: once a worker that has listed what is due is idle again, and
      has not failed or died on the way, every row it listed has moved past the date it was listed with or has
      ended, whatever any number of others did meanwhile. */
  lemma ListedIsDealtWith(sys: System, w: nat, now: int, rows: seq<Due>, events: seq<Event>, row: Due)
    requires Inv(sys) && Enabled(sys, ListDue(w, now, rows)) && row in rows
    requires ValidRun(Apply(sys, ListDue(w, now, rows)), events) && forall e :: e in events ==> !GivesUp(e, w)
    requires TaskOf(AfterRun(Apply(sys, ListDue(w, now, rows)), events), w) == Idle
    ensures IsDealtWith(AfterRun(Apply(sys, ListDue(w, now, rows)), events).store, row)
  {
    hide Inv, ValidRun, AfterRun, GivesUp, IsDealtWith, WasListed, Apply, Enabled;
    ListingPutsInHand(sys, w, now, rows, row);
    StepKeepsInv(sys, ListDue(w, now, rows));
    RunKeepsInHand(Apply(sys, ListDue(w, now, rows)), events, w, row);
  }
}
