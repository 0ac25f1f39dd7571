/**
 A sweep that nothing interrupts is a run of the protocol (backend/src/plans/renewals.service.ts:67-219), so
 what is proved of sweeps holds wherever an interleaved run has left off.
 */
module SweepRuns {
  import opened Options
  import opened Billing
  import opened Renewal
  import opened RenewalProtocol
  import opened Sweep
  import opened CatchUp

  lemma {:induction false} RunConcat(sys: System, a: seq<Event>, b: seq<Event>)
    requires ValidRun(sys, a) && ValidRun(AfterRun(sys, a), b)
    ensures ValidRun(sys, a + b) && AfterRun(sys, a + b) == AfterRun(AfterRun(sys, a), b)
    decreases |a|
  {
    hide Enabled, Apply;
    if a == [] {
      assert a + b == b;
    } else {
      assert (a + b)[0] == a[0] && (a + b)[1..] == a[1..] + b;
      RunConcat(Apply(sys, a[0]), a[1..], b);
    }
  }

  /** One more event at the end of a run. */
  lemma RunAndOne(sys: System, events: seq<Event>, e: Event, after: System)
    requires ValidRun(sys, events) && Enabled(AfterRun(sys, events), e) && Apply(AfterRun(sys, events), e) == after
    ensures ValidRun(sys, events + [e]) && AfterRun(sys, events + [e]) == after
  {
    hide Enabled, Apply, ValidRun, AfterRun;
    RunOfOne(AfterRun(sys, events), e);
    RunConcat(sys, events, [e]);
  }

  // ---------- The phases ----------

  function Repeat(e: Event, n: nat): seq<Event> {
    if n == 0 then [] else Repeat(e, n - 1) + [e]
  }

  function RenewPhase(w: nat, st: Store, rows: seq<Due>, clock: nat -> int, n: nat): seq<Event>
    requires n <= |rows|
  {
    if n == 0 then []
    else
      var row := rows[n - 1];
      RenewPhase(w, st, rows, clock, n - 1) + [TakeRow(w)]
      + RenewalEvents(w, RenewRows(st, rows[..n - 1], clock), row.subscription, row.renewsAt, clock(n - 1))
  }

  lemma {:induction false} ExpirePhaseIsARun(sys: System, w: nat, rows: seq<Due>, n: nat)
    requires w in sys.tasks && sys.tasks[w] == Expiring(rows) && n <= |rows|
    ensures ValidRun(sys, Repeat(ExpireRow(w), n))
    ensures AfterRun(sys, Repeat(ExpireRow(w), n))
            == System(ExpireRows(sys.store, rows[..n]), sys.tasks[w := Expiring(rows[n..])])
  {
    hide ExpireIn, ValidRun, AfterRun;
    if n == 0 {
      NoEvents(sys);
      assert rows[0..] == rows && sys.tasks[w := Expiring(rows)] == sys.tasks;
    } else {
      ExpirePhaseIsARun(sys, w, rows, n - 1);
      var before := System(ExpireRows(sys.store, rows[..n - 1]), sys.tasks[w := Expiring(rows[n - 1..])]);
      assert rows[..n][..n - 1] == rows[..n - 1] && rows[n - 1..][1..] == rows[n..];
      var after := System(ExpireRows(sys.store, rows[..n]), sys.tasks[w := Expiring(rows[n..])]);
      assert Apply(before, ExpireRow(w)).tasks == after.tasks;
      RunAndOne(sys, Repeat(ExpireRow(w), n - 1), ExpireRow(w), after);
    }
  }

  lemma NoEvents(sys: System)
    ensures ValidRun(sys, []) && AfterRun(sys, []) == sys
  {
  }

  lemma {:induction false} ReassessPhaseIsARun(sys: System, w: nat, rows: seq<Assessed>, n: nat)
    requires w in sys.tasks && sys.tasks[w] == Reassessing(rows) && n <= |rows|
    ensures ValidRun(sys, Repeat(ReassessRow(w), n))
    ensures AfterRun(sys, Repeat(ReassessRow(w), n))
            == System(ReassessRows(sys.store, rows[..n]), sys.tasks[w := Reassessing(rows[n..])])
  {
    hide ReassessIn, ValidRun, AfterRun;
    if n == 0 {
      NoEvents(sys);
      assert rows[0..] == rows && sys.tasks[w := Reassessing(rows)] == sys.tasks;
    } else {
      ReassessPhaseIsARun(sys, w, rows, n - 1);
      var before := System(ReassessRows(sys.store, rows[..n - 1]), sys.tasks[w := Reassessing(rows[n - 1..])]);
      assert rows[..n][..n - 1] == rows[..n - 1] && rows[n - 1..][1..] == rows[n..];
      var after := System(ReassessRows(sys.store, rows[..n]), sys.tasks[w := Reassessing(rows[n..])]);
      assert Apply(before, ReassessRow(w)).tasks == after.tasks;
      RunAndOne(sys, Repeat(ReassessRow(w), n - 1), ReassessRow(w), after);
    }
  }

  lemma {:induction false} RenewPhaseIsARun(sys: System, w: nat, rows: seq<Due>, clock: nat -> int, n: nat)
    requires w in sys.tasks && sys.tasks[w] == Sweeping(rows) && n <= |rows|
    ensures ValidRun(sys, RenewPhase(w, sys.store, rows, clock, n))
    ensures AfterRun(sys, RenewPhase(w, sys.store, rows, clock, n))
            == System(RenewRows(sys.store, rows[..n], clock), sys.tasks[w := Sweeping(rows[n..])])
  {
    hide RenewAlone, RenewalEvents, ValidRun, AfterRun;
    if n == 0 {
      NoEvents(sys);
      assert rows[0..] == rows && sys.tasks[w := Sweeping(rows)] == sys.tasks;
    } else {
      RenewPhaseIsARun(sys, w, rows, clock, n - 1);
      var st, row := RenewRows(sys.store, rows[..n - 1], clock), rows[n - 1];
      var before := System(st, sys.tasks[w := Sweeping(rows[n - 1..])]);
      var taken := System(st, sys.tasks[w := Reading(row.subscription, Some(row.renewsAt), rows[n..])]);
      assert rows[..n][..n - 1] == rows[..n - 1] && rows[n - 1..][1..] == rows[n..];
      assert Apply(before, TakeRow(w)).tasks == taken.tasks;
      var events := RenewPhase(w, sys.store, rows, clock, n - 1);
      RunAndOne(sys, events, TakeRow(w), taken);
      RenewAloneIsARun(taken, w, row.subscription, row.renewsAt, rows[n..], clock(n - 1));
      RunConcat(sys, events + [TakeRow(w)],
                RenewalEvents(w, st, row.subscription, row.renewsAt, clock(n - 1)));
    }
  }

  // ---------- The sweep ----------

  function ExpireEvents(w: nat, now: int, rows: seq<Due>): seq<Event> {
    [ListExpired(w, now, rows)] + Repeat(ExpireRow(w), |rows|) + [ExpireRow(w)]
  }

  function RenewEvents(w: nat, st: Store, now: int, rows: seq<Due>, clock: nat -> int): seq<Event> {
    [ListDue(w, now, rows)] + RenewPhase(w, st, rows, clock, |rows|) + [TakeRow(w)]
  }

  function ReassessEvents(w: nat, now: int, rows: seq<Assessed>): seq<Event> {
    [ListArrears(w, now, rows)] + Repeat(ReassessRow(w), |rows|) + [ReassessRow(w)]
  }

  /** What one worker does in a sweep: list, go through the list, and find it empty, three times. */
  function SweepEvents(w: nat, st: Store, now: int, q: Inputs): seq<Event> {
    var st1 := ExpireRows(st, q.expired);
    ExpireEvents(w, now, q.expired) + RenewEvents(w, st1, now, q.due, q.clock) + ReassessEvents(w, now, q.assessed)
  }

  predicate IsIdle(sys: System, w: nat) {
    w in sys.tasks && sys.tasks[w] == Idle
  }

  lemma ExpireIsARun(sys: System, w: nat, now: int, rows: seq<Due>)
    requires IsIdle(sys, w) && forall r :: r in rows ==> IsRunOut(sys.store, r, now)
    ensures var events := ExpireEvents(w, now, rows);
            ValidRun(sys, events) && AfterRun(sys, events) == sys.(store := ExpireRows(sys.store, rows))
  {
    hide ValidRun, AfterRun, ExpireRows, IsRunOut, ExpireIn, Repeat;
    var listed := System(sys.store, sys.tasks[w := Expiring(rows)]);
    assert Apply(sys, ListExpired(w, now, rows)) == listed;
    RunOfOne(sys, ListExpired(w, now, rows));
    ExpirePhaseIsARun(listed, w, rows, |rows|);
    assert rows[..|rows|] == rows && rows[|rows|..] == [];
    RunConcat(sys, [ListExpired(w, now, rows)], Repeat(ExpireRow(w), |rows|));
    var through := System(ExpireRows(sys.store, rows), listed.tasks[w := Expiring([])]);
    var after := sys.(store := ExpireRows(sys.store, rows));
    assert Apply(through, ExpireRow(w)).tasks == after.tasks;
    RunAndOne(sys, [ListExpired(w, now, rows)] + Repeat(ExpireRow(w), |rows|), ExpireRow(w), after);
  }

  lemma RenewIsARun(sys: System, w: nat, now: int, rows: seq<Due>, clock: nat -> int)
    requires IsIdle(sys, w) && forall r :: r in rows ==> IsDue(sys.store, r, now)
    ensures var events := RenewEvents(w, sys.store, now, rows, clock);
            ValidRun(sys, events) && AfterRun(sys, events) == sys.(store := RenewRows(sys.store, rows, clock))
  {
    hide ValidRun, AfterRun, RenewRows, IsDue, RenewPhase;
    var listed := System(sys.store, sys.tasks[w := Sweeping(rows)]);
    assert Apply(sys, ListDue(w, now, rows)) == listed;
    RunOfOne(sys, ListDue(w, now, rows));
    RenewPhaseIsARun(listed, w, rows, clock, |rows|);
    assert rows[..|rows|] == rows && rows[|rows|..] == [];
    var phase := RenewPhase(w, sys.store, rows, clock, |rows|);
    RunConcat(sys, [ListDue(w, now, rows)], phase);
    var through := System(RenewRows(sys.store, rows, clock), listed.tasks[w := Sweeping([])]);
    var after := sys.(store := RenewRows(sys.store, rows, clock));
    assert Apply(through, TakeRow(w)).tasks == after.tasks;
    RunAndOne(sys, [ListDue(w, now, rows)] + phase, TakeRow(w), after);
  }

  lemma ReassessIsARun(sys: System, w: nat, now: int, rows: seq<Assessed>)
    requires IsIdle(sys, w) && forall r :: r in rows ==> IsSeen(sys.store, r)
    ensures var events := ReassessEvents(w, now, rows);
            ValidRun(sys, events) && AfterRun(sys, events) == sys.(store := ReassessRows(sys.store, rows))
  {
    hide ValidRun, AfterRun, ReassessRows, IsSeen, ReassessIn, Repeat;
    var listed := System(sys.store, sys.tasks[w := Reassessing(rows)]);
    assert Apply(sys, ListArrears(w, now, rows)) == listed;
    RunOfOne(sys, ListArrears(w, now, rows));
    ReassessPhaseIsARun(listed, w, rows, |rows|);
    assert rows[..|rows|] == rows && rows[|rows|..] == [];
    RunConcat(sys, [ListArrears(w, now, rows)], Repeat(ReassessRow(w), |rows|));
    var through := System(ReassessRows(sys.store, rows), listed.tasks[w := Reassessing([])]);
    var after := sys.(store := ReassessRows(sys.store, rows));
    assert Apply(through, ReassessRow(w)).tasks == after.tasks;
    RunAndOne(sys, [ListArrears(w, now, rows)] + Repeat(ReassessRow(w), |rows|), ReassessRow(w), after);
  }

  /** A whole sweep, run alone, is a run of the protocol, from any state and whatever the other workers are in
      the middle of; it leaves them where they were. */
  lemma SweepIsARun(sys: System, w: nat, now: int, q: Inputs)
    requires IsIdle(sys, w) && CouldReturn(sys.store, now, q)
    ensures var events := SweepEvents(w, sys.store, now, q);
            ValidRun(sys, events) && AfterRun(sys, events) == sys.(store := SweepOnce(sys.store, q))
  {
    hide ValidRun, AfterRun, ExpireRows, RenewRows, ReassessRows, IsRunOut, IsDue,
      ExpireEvents, RenewEvents, ReassessEvents, RunOutNow, DueNow, LiveNow, Owes, IsSeen;
    var sys1 := sys.(store := ExpireRows(sys.store, q.expired));
    var sys2 := sys.(store := RenewRows(sys1.store, q.due, q.clock));
    var first, second := ExpireEvents(w, now, q.expired), RenewEvents(w, sys1.store, now, q.due, q.clock);
    ExpireIsARun(sys, w, now, q.expired);
    RenewIsARun(sys1, w, now, q.due, q.clock);
    ReassessIsARun(sys2, w, now, q.assessed);
    RunConcat(sys, first, second);
    RunConcat(sys, first + second, ReassessEvents(w, now, q.assessed));
  }

  function SweepsEvents(w: nat, st: Store, now: int, qs: seq<Inputs>): seq<Event>
    decreases |qs|
  {
    if qs == [] then []
    else SweepEvents(w, st, now, qs[0]) + SweepsEvents(w, SweepOnce(st, qs[0]), now, qs[1..])
  }

  lemma {:induction false} SweepsAreARun(sys: System, w: nat, now: int, qs: seq<Inputs>)
    requires IsIdle(sys, w) && CouldSweep(sys.store, now, qs)
    ensures var events := SweepsEvents(w, sys.store, now, qs);
            ValidRun(sys, events) && AfterRun(sys, events) == sys.(store := Sweeps(sys.store, qs))
    decreases |qs|
  {
    hide ValidRun, AfterRun, SweepEvents, SweepOnce, CouldReturn;
    if qs == [] {
      NoEvents(sys);
    } else {
      SweepIsARun(sys, w, now, qs[0]);
      var after := sys.(store := SweepOnce(sys.store, qs[0]));
      SweepsAreARun(after, w, now, qs[1..]);
      RunConcat(sys, SweepEvents(w, sys.store, now, qs[0]), SweepsEvents(w, after.store, now, qs[1..]));
    }
  }

  // ---------- Catching up from anywhere ----------

  /** After any interleaved and interrupted run in which nobody renews by hand or ahead of `now`, one idle worker
      catches up: as many sweeps as there are anniversaries outstanding go on with that run, and then every
      subscription that renews has exactly the anniversaries up to `now` invoiced, each once. */
  lemma CatchUpFromAnywhere(events: seq<Event>, w: nat, now: int, qs: seq<Inputs>, id: nat, start: int)
    requires ValidRun(INITIAL_SYSTEM, events) && forall e :: e in events ==> Unattended(e, now)
    requires IsIdle(AfterRun(INITIAL_SYSTEM, events), w)
    requires CouldSweep(AfterRun(INITIAL_SYSTEM, events).store, now, qs)
    requires |qs| >= Backlog(AfterRun(INITIAL_SYSTEM, events).store.subscriptions, now)
    ensures var sweeps := SweepsEvents(w, AfterRun(INITIAL_SYSTEM, events).store, now, qs);
            var st := AfterRun(INITIAL_SYSTEM, events + sweeps).store;
            ValidRun(INITIAL_SYSTEM, events + sweeps)
            && (id < |st.subscriptions| && WillRenew(st.subscriptions[id]) ==>
                  st.subscriptions[id].renewsAt > now
                  && CountPeriod(st.invoices, Period(id, start))
                     == if HasComeDue(st.subscriptions[id], start, now) then 1 else 0)
  {
    hide StoreInv, TaskInv, TaskNotAhead, Unattended, ValidRun, AfterRun, SweepsEvents, Sweeps, CouldSweep, Backlog,
      HasComeDue, CountPeriod;
    var sys := AfterRun(INITIAL_SYSTEM, events);
    InitialInv();
    NothingAhead(now);
    RunNotAhead(INITIAL_SYSTEM, events, now);
    SweepsAreARun(sys, w, now, qs);
    RunConcat(INITIAL_SYSTEM, events, SweepsEvents(w, sys.store, now, qs));
    var st := Sweeps(sys.store, qs);
    if id < |st.subscriptions| && WillRenew(st.subscriptions[id]) {
      SweepsCatchUp(sys.store, now, qs, id, start);
    }
  }

  lemma NothingAhead(horizon: int)
    ensures NotAhead(INITIAL_SYSTEM, horizon)
  {
  }
}
