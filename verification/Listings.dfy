/**
 A sweep can always go on: whatever is in the tables, every query of a sweep has a result
 (backend/src/plans/renewals.service.ts:67-219, backend/src/plans/subscriptions.service.ts:347-363). So catching up
 is possible from anywhere.
 */
module Listings {
  import opened Billing
  import opened RenewalProtocol
  import opened Sweep
  import opened CatchUp
  import opened SweepRuns

  // ---------- Taking the earliest ----------

  predicate AreRows(st: Store, ids: set<nat>) {
    forall id :: id in ids ==> id < |st.subscriptions|
  }

  predicate IsEarliest(st: Store, id: nat, found: set<nat>) {
    AreRows(st, found) && id in found
    && forall x :: x in found ==> st.subscriptions[id].renewsAt <= st.subscriptions[x].renewsAt
  }

  lemma Earliest(st: Store, found: set<nat>) returns (id: nat)
    requires AreRows(st, found) && found != {}
    ensures IsEarliest(st, id, found)
    decreases |found|
  {
    id :| id in found;
    var one, others := id, found - {id};
    if others == {} {
      assert forall x :: x in found ==> x == one || x in others;
    } else {
      var other := Earliest(st, others);
      if st.subscriptions[other].renewsAt < st.subscriptions[id].renewsAt {
        id := other;
      }
      forall x | x in found
        ensures st.subscriptions[id].renewsAt <= st.subscriptions[x].renewsAt
      {
        assert x == one || x in others;
      }
    }
  }

  /** At most `take` of the rows found, the earliest and in order. */
  ghost predicate AreEarliest(st: Store, ids: seq<nat>, found: set<nat>)
    requires AreRows(st, found) && forall i :: 0 <= i < |ids| ==> ids[i] in found
  {
    && (forall i, j :: 0 <= i < j < |ids| ==> st.subscriptions[ids[i]].renewsAt <= st.subscriptions[ids[j]].renewsAt)
    && (forall id, i :: id in found && id !in ids && 0 <= i < |ids| ==>
          st.subscriptions[ids[i]].renewsAt <= st.subscriptions[id].renewsAt)
  }

  lemma {:induction false} FirstRows(st: Store, found: set<nat>, take: nat) returns (ids: seq<nat>)
    requires AreRows(st, found)
    ensures Listed(ids, found, take) && AreEarliest(st, ids, found)
    decreases take
  {
    if take == 0 || found == {} {
      ids := [];
    } else {
      var first := Earliest(st, found);
      var rest := FirstRows(st, found - {first}, take - 1);
      ids := [first] + rest;
      FirstAndRest(st, found, first, rest, take);
    }
  }

  lemma FirstAndRest(st: Store, found: set<nat>, first: nat, rest: seq<nat>, take: nat)
    requires IsEarliest(st, first, found) && take > 0
    requires Listed(rest, found - {first}, take - 1) && AreEarliest(st, rest, found - {first})
    ensures Listed([first] + rest, found, take) && AreEarliest(st, [first] + rest, found)
  {
    var ids := [first] + rest;
    forall i, j | 0 <= i < j < |ids|
      ensures ids[i] != ids[j] && st.subscriptions[ids[i]].renewsAt <= st.subscriptions[ids[j]].renewsAt
    {
      assert ids[j] == rest[j - 1] && rest[j - 1] in rest;
      if i > 0 {
        assert ids[i] == rest[i - 1];
      }
    }
    forall i | 0 <= i < |ids|
      ensures ids[i] in found && (i > 0 ==> ids[i] == rest[i - 1])
    {
      assert i > 0 ==> rest[i - 1] in rest;
    }
    assert |found| == |found - {first}| + 1;
  }

  // ---------- The queries ----------

  lemma AllAreRows(st: Store, ids: seq<nat>, found: set<nat>)
    requires AreRows(st, found) && forall id :: id in ids ==> id in found
    ensures forall i :: 0 <= i < |ids| ==> ids[i] < |st.subscriptions| && ids[i] in found
  {
    forall i | 0 <= i < |ids|
      ensures ids[i] in found
    {
      assert ids[i] in ids;
    }
  }

  lemma SomeRunOut(st: Store, now: int) returns (rows: seq<Due>)
    ensures RunOutListing(st, now, rows)
  {
    hide IsRunOut;
    var ids := FirstRows(st, RunOutNow(st, now), BATCH);
    AllAreRows(st, ids, RunOutNow(st, now));
    rows := seq(|ids|, i requires 0 <= i < |ids| && ids[i] < |st.subscriptions| =>
      Due(ids[i], st.subscriptions[ids[i]].renewsAt));
    assert Ids(rows) == ids;
    forall i | 0 <= i < |rows|
      ensures IsRunOut(st, rows[i], now)
    {
      assert ids[i] in ids;
    }
  }

  lemma SomeDue(st: Store, now: int) returns (rows: seq<Due>)
    ensures DueListing(st, now, rows)
  {
    hide IsDue;
    var ids := FirstRows(st, DueNow(st, now), BATCH);
    AllAreRows(st, ids, DueNow(st, now));
    rows := seq(|ids|, i requires 0 <= i < |ids| && ids[i] < |st.subscriptions| =>
      Due(ids[i], st.subscriptions[ids[i]].renewsAt));
    assert Ids(rows) == ids;
    forall i | 0 <= i < |rows|
      ensures IsDue(st, rows[i], now) && ids[i] in ids && rows[i].renewsAt == st.subscriptions[ids[i]].renewsAt
    {
      assert ids[i] in ids;
    }
  }

  lemma SomeArrears(st: Store, now: int) returns (rows: seq<Assessed>)
    ensures ArrearsListing(st, now, rows)
  {
    hide Owes;
    var ids := FirstRows(st, LiveNow(st), BATCH);
    AllAreRows(st, ids, LiveNow(st));
    rows := seq(|ids|, i requires 0 <= i < |ids| && ids[i] < |st.subscriptions| =>
      Assessed(ids[i], st.subscriptions[ids[i]].status, Owes(st, st.subscriptions[ids[i]].customer, now)));
    assert AssessedIds(rows) == ids;
    forall i | 0 <= i < |rows|
      ensures IsAssessed(st, rows[i], now)
    {
      assert ids[i] in ids;
    }
  }

  /** In every store, and for every clock, the queries of a sweep return something. */
  lemma SweepIsPossible(st: Store, now: int, clock: nat -> int)
    ensures exists q :: CouldReturn(st, now, q) && q.clock == clock
  {
    hide RunOutListing, DueListing, ArrearsListing, ExpireRows, RenewRows;
    var expired := SomeRunOut(st, now);
    var due := SomeDue(ExpireRows(st, expired), now);
    var assessed := SomeArrears(RenewRows(ExpireRows(st, expired), due, clock), now);
    assert CouldReturn(st, now, Inputs(expired, due, assessed, clock));
  }

  /** So any number of sweeps can be made. */
  lemma {:induction false} SweepsArePossible(st: Store, now: int, clock: nat -> int, n: nat)
    ensures exists qs :: |qs| == n && CouldSweep(st, now, qs)
    decreases n
  {
    hide CouldReturn, SweepOnce;
    if n == 0 {
      assert CouldSweep(st, now, []);
    } else {
      SweepIsPossible(st, now, clock);
      var q :| CouldReturn(st, now, q) && q.clock == clock;
      SweepsArePossible(SweepOnce(st, q), now, clock, n - 1);
      var qs :| |qs| == n - 1 && CouldSweep(SweepOnce(st, q), now, qs);
      assert ([q] + qs)[1..] == qs;
      assert CouldSweep(st, now, [q] + qs);
    }
  }

  // ---------- Catching up is possible ----------

  /** A subscription that renews has `start` invoiced, once, exactly when it is an anniversary up to `now`. */
  ghost predicate IsUpToDate(st: Store, now: int, id: nat, start: int) {
    id < |st.subscriptions| && WillRenew(st.subscriptions[id]) ==>
      st.subscriptions[id].renewsAt > now
      && CountPeriod(st.invoices, Period(id, start)) == if HasComeDue(st.subscriptions[id], start, now) then 1 else 0
  }

  ghost predicate IsCaughtUp(st: Store, now: int) {
    forall id: nat, start: int :: IsUpToDate(st, now, id, start)
  }

  /** However an unattended run was interleaved and interrupted, if one worker is idle it can be gone on with until
      everything is caught up. */
  lemma CatchUpIsPossible(events: seq<Event>, w: nat, now: int)
    requires ValidRun(INITIAL_SYSTEM, events) && forall e :: e in events ==> Unattended(e, now)
    requires IsIdle(AfterRun(INITIAL_SYSTEM, events), w)
    ensures exists more :: ValidRun(INITIAL_SYSTEM, events + more)
                           && IsCaughtUp(AfterRun(INITIAL_SYSTEM, events + more).store, now)
  {
    hide ValidRun, AfterRun, Unattended, CouldSweep, Backlog, SweepsEvents, CountPeriod, HasComeDue, WillRenew;
    var st := AfterRun(INITIAL_SYSTEM, events).store;
    SweepsArePossible(st, now, _ => now, Backlog(st.subscriptions, now));
    var qs :| |qs| == Backlog(st.subscriptions, now) && CouldSweep(st, now, qs);
    var more := SweepsEvents(w, st, now, qs);
    CatchUpFromAnywhere(events, w, now, qs, 0, 0);
    forall id: nat, start: int
      ensures IsUpToDate(AfterRun(INITIAL_SYSTEM, events + more).store, now, id, start)
    {
      CatchUpFromAnywhere(events, w, now, qs, id, start);
    }
    assert IsCaughtUp(AfterRun(INITIAL_SYSTEM, events + more).store, now);
  }
}
