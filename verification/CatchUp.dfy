/**
 Sweeping until nothing is due (backend/src/plans/renewals.service.ts:67-167): every sweep brings what is
 due closer, so the sweeps end, and they end with exactly the periods that have come due invoiced.
 */
module CatchUp {
  import opened Numbers
  import opened Calendar
  import opened Billing
  import opened Renewal
  import opened RenewalProtocol
  import opened Sequences
  import opened Sweep

  predicate WillRenew(s: Subscription) {
    Live(s.status) && s.autoRenew
  }

  /** Anniversaries up to `horizon` that a subscription has not moved past. */
  function Behind(s: Subscription, horizon: int): nat {
    if WillRenew(s) && s.renewsAt <= horizon
    then Max(0, NextIndex(s.startsAt, horizon, s.cycle) - NextIndex(s.startsAt, s.renewsAt, s.cycle) + 1)
    else 0
  }

  function Backlog(subscriptions: seq<Subscription>, horizon: int): nat {
    if subscriptions == [] then 0
    else Backlog(subscriptions[..|subscriptions| - 1], horizon) + Behind(subscriptions[|subscriptions| - 1], horizon)
  }

  /** Renewing a due subscription leaves it exactly one anniversary less behind. */
  lemma RenewedIsLessBehind(st: Store, id: nat, horizon: int)
    requires StoreInv(st) && id < |st.subscriptions|
    requires WillRenew(st.subscriptions[id]) && st.subscriptions[id].renewsAt <= horizon
    ensures Behind(st.subscriptions[id], horizon) == Behind(RenewedRow(st.subscriptions[id]), horizon) + 1
  {
    hide Gapless, Anniversary, Supported, NextIndex;
    var s := st.subscriptions[id];
    assert Billed(st, id);
    var k :| BilledUpTo(st, id, k);
    assert IsNextAnniversary(s.startsAt, horizon, s.cycle, NextIndex(s.startsAt, horizon, s.cycle));
    RenewalStep(s.startsAt, s.cycle, k);
    RenewalStep(s.startsAt, s.cycle, k + 1);
    var last := NextIndex(s.startsAt, horizon, s.cycle);
    if last <= k {
      NoEarlier(s, last, k);
    }
    assert k + 1 < last ==> PeriodDate(s, k + 1) <= horizon;
    if last <= k + 1 {
      NoEarlier(s, last, k + 1);
    }
  }

  lemma NoEarlier(s: Subscription, j: int, k: int)
    requires Supported(s.startsAt) && 0 <= j <= k
    ensures PeriodDate(s, j) <= PeriodDate(s, k)
  {
    hide Anniversary, Supported;
    if j < k {
      AnniversariesIncrease(s.startsAt, s.cycle, j, k);
    }
  }

  /** Backlogs compare row by row; `changed` counts the rows that lost one. */
  lemma {:induction false} BacklogByRows(before: seq<Subscription>, after: seq<Subscription>, changed: set<nat>,
      horizon: int)
    requires |before| == |after| && forall id :: id in changed ==> id < |before|
    requires forall id :: 0 <= id < |before| ==>
               Behind(before[id], horizon) == Behind(after[id], horizon) + if id in changed then 1 else 0
    ensures Backlog(before, horizon) == Backlog(after, horizon) + |changed|
    decreases |before|
  {
    hide Behind;
    if before == [] {
      assert changed == {};
    } else {
      var n := |before| - 1;
      BacklogByRows(before[..n], after[..n], changed - {n}, horizon);
      if n in changed {
        assert changed == (changed - {n}) + {n};
      } else {
        assert changed == changed - {n};
      }
    }
  }

  lemma ExpiringKeepsBacklog(st: Store, rows: seq<Due>, now: int)
    requires RunOutListing(st, now, rows)
    ensures Backlog(ExpireRows(st, rows).subscriptions, now) == Backlog(st.subscriptions, now)
  {
    hide ExpireRows, Behind, IsRunOut, RunOutNow;
    ExpireRowsEffect(st, rows, now);
    forall id | 0 <= id < |st.subscriptions|
      ensures Behind(st.subscriptions[id], now) == Behind(ExpireRows(st, rows).subscriptions[id], now)
    {
      ExpiringIsNotBehind(st, ExpireRows(st, rows), rows, now, id);
    }
    BacklogByRows(st.subscriptions, ExpireRows(st, rows).subscriptions, {}, now);
  }

  lemma RenewingShortensBacklog(st: Store, rows: seq<Due>, now: int, clock: nat -> int)
    requires StoreInv(st) && DueListing(st, now, rows)
    ensures Backlog(st.subscriptions, now) == Backlog(RenewRows(st, rows, clock).subscriptions, now) + |rows|
  {
    hide StoreInv, RenewRows, CountPeriod, RenewedRow, Behind, IsDue, DueNow;
    RenewRowsEffect(st, rows, now, clock);
    RenewingIsLessBehind(st, rows, now);
    BacklogByRows(st.subscriptions, RenewRows(st, rows, clock).subscriptions, ToSet(Ids(rows)), now);
    DistinctSize(Ids(rows));
  }

  lemma ReassessingKeepsBacklog(st: Store, rows: seq<Assessed>, now: int)
    requires ArrearsListing(st, now, rows)
    ensures Backlog(ReassessRows(st, rows).subscriptions, now) == Backlog(st.subscriptions, now)
  {
    hide ReassessRows, Behind, IsAssessed, LiveNow, Owes;
    ReassessRowsEffect(st, rows, now);
    forall id | 0 <= id < |st.subscriptions|
      ensures Behind(st.subscriptions[id], now) == Behind(ReassessRows(st, rows).subscriptions[id], now)
    {
      ReassessingIsNotBehind(st, ReassessRows(st, rows), rows, now, id);
    }
    BacklogByRows(st.subscriptions, ReassessRows(st, rows).subscriptions, {}, now);
  }

  /** A sweep shortens the backlog by one for every row it lists. */
  lemma SweepShortensBacklog(st: Store, now: int, q: Inputs)
    requires StoreInv(st) && CouldReturn(st, now, q)
    ensures Backlog(st.subscriptions, now) == Backlog(SweepOnce(st, q).subscriptions, now) + |q.due|
  {
    hide StoreInv, ExpireRows, RenewRows, ReassessRows, RunOutListing, DueListing, ArrearsListing, Backlog;
    var st1 := ExpireRows(st, q.expired);
    ExpireRowsKeep(st, q.expired, now);
    ExpiringKeepsBacklog(st, q.expired, now);
    RenewingShortensBacklog(st1, q.due, now, q.clock);
    ReassessingKeepsBacklog(RenewRows(st1, q.due, q.clock), q.assessed, now);
  }

  lemma ExpiringIsNotBehind(st: Store, after: Store, rows: seq<Due>, now: int, id: nat)
    requires id < |st.subscriptions| && id < |after.subscriptions|
    requires forall r :: r in rows ==> IsRunOut(st, r, now)
    requires after.subscriptions[id]
             == if id in Ids(rows) then st.subscriptions[id].(status := Expired) else st.subscriptions[id]
    ensures Behind(st.subscriptions[id], now) == Behind(after.subscriptions[id], now)
  {
    hide NextIndex;
    if id in Ids(rows) {
      var i :| 0 <= i < |rows| && Ids(rows)[i] == id;
      assert IsRunOut(st, rows[i], now);
    }
  }

  lemma RenewingIsLessBehind(st: Store, rows: seq<Due>, now: int)
    requires StoreInv(st) && forall r :: r in rows ==> IsDue(st, r, now)
    ensures forall id :: id in Ids(rows) ==> id < |st.subscriptions|
    ensures forall id :: 0 <= id < |st.subscriptions| && id in Ids(rows) ==>
              Behind(st.subscriptions[id], now) == Behind(RenewedRow(st.subscriptions[id]), now) + 1
  {
    hide StoreInv, Behind, RenewedRow;
    forall i | 0 <= i < |rows|
      ensures Ids(rows)[i] < |st.subscriptions|
      ensures Behind(st.subscriptions[Ids(rows)[i]], now) == Behind(RenewedRow(st.subscriptions[Ids(rows)[i]]), now) + 1
    {
      assert IsDue(st, rows[i], now);
      RenewedIsLessBehind(st, rows[i].subscription, now);
    }
  }

  lemma ReassessingIsNotBehind(st: Store, after: Store, rows: seq<Assessed>, now: int, id: nat)
    requires id < |st.subscriptions| && id < |after.subscriptions|
    requires forall r :: r in rows ==> IsAssessed(st, r, now)
    requires after.subscriptions[id]
             == if id in AssessedIds(rows)
                then st.subscriptions[id].(status := Target(Owes(st, st.subscriptions[id].customer, now)))
                else st.subscriptions[id]
    ensures Behind(st.subscriptions[id], now) == Behind(after.subscriptions[id], now)
  {
    hide NextIndex, Owes;
    if id in AssessedIds(rows) {
      var i :| 0 <= i < |rows| && AssessedIds(rows)[i] == id;
      assert IsAssessed(st, rows[i], now);
    }
  }

  // ---------- Repeated sweeps ----------

  function Sweeps(st: Store, qs: seq<Inputs>): Store
    decreases |qs|
  {
    if qs == [] then st else Sweeps(SweepOnce(st, qs[0]), qs[1..])
  }

  predicate CouldSweep(st: Store, now: int, qs: seq<Inputs>)
    decreases |qs|
  {
    qs == [] || (CouldReturn(st, now, qs[0]) && CouldSweep(SweepOnce(st, qs[0]), now, qs[1..]))
  }

  ghost predicate InvoicedBy(st: Store, horizon: int) {
    forall p :: CountPeriod(st.invoices, p) > 0 ==> p.start <= horizon
  }

  /** While anything is due a sweep lists something; so the listing is empty only when nothing is due. */
  lemma ListsSomething(st: Store, now: int, rows: seq<Due>)
    requires DueListing(st, now, rows)
    ensures rows == [] <==> DueNow(st, now) == {}
  {
    hide IsDue;
    assert |Ids(rows)| == |rows|;
    if rows != [] {
      assert Ids(rows)[0] in Ids(rows);
    }
  }

  lemma SweepKeepsInvoicedBy(st: Store, now: int, q: Inputs)
    requires StoreInv(st) && CouldReturn(st, now, q) && InvoicedBy(st, now)
    ensures InvoicedBy(SweepOnce(st, q), now)
  {
    hide StoreInv, ExpireRows, RenewRows, ReassessRows, Owes, CountPeriod, RenewedRow, IsRunOut, IsAssessed;
    var st1 := ExpireRows(st, q.expired);
    ExpireRowsEffect(st, q.expired, now);
    ExpireRowsKeep(st, q.expired, now);
    RenewRowsEffect(st1, q.due, now, q.clock);
    ReassessRowsEffect(RenewRows(st1, q.due, q.clock), q.assessed, now);
    var after := SweepOnce(st, q);
    forall p | CountPeriod(after.invoices, p) > 0
      ensures p.start <= now
    {
      if Due(p.subscription, p.start) in q.due {
        assert IsDue(st1, Due(p.subscription, p.start), now);
      }
    }
  }

  /** Each sweep shortens the backlog or finds nothing due. */
  lemma {:induction false} SweepsShortenBacklog(st: Store, now: int, qs: seq<Inputs>)
    requires StoreInv(st) && InvoicedBy(st, now) && CouldSweep(st, now, qs)
    ensures var after := Sweeps(st, qs);
            StoreInv(after) && InvoicedBy(after, now)
            && Backlog(after.subscriptions, now) <= Max(0, Backlog(st.subscriptions, now) - |qs|)
    decreases |qs|
  {
    hide StoreInv, InvoicedBy, CouldReturn, SweepOnce, Backlog;
    if qs != [] {
      SweepKeepsInv(st, now, qs[0]);
      SweepKeepsInvoicedBy(st, now, qs[0]);
      SweepShortensBacklog(st, now, qs[0]);
      SweepsShortenBacklog(SweepOnce(st, qs[0]), now, qs[1..]);
      if qs[0].due == [] {
        NothingDueNoBacklog(st, now, qs[0]);
      }
    }
  }

  lemma NothingDueNoBacklog(st: Store, now: int, q: Inputs)
    requires CouldReturn(st, now, q) && q.due == []
    ensures Backlog(st.subscriptions, now) == 0
  {
    hide ExpireRows, RenewRows, IsDue, IsRunOut, IsAssessed, Behind;
    var st1 := ExpireRows(st, q.expired);
    ListsSomething(st1, now, q.due);
    ExpireRowsEffect(st, q.expired, now);
    forall id | 0 <= id < |st.subscriptions|
      ensures Behind(st.subscriptions[id], now) == 0
    {
      ExpiringIsNotBehind(st, st1, q.expired, now, id);
      NotDueIsNotBehind(st1, now, id);
    }
    NoBacklog(st.subscriptions, now);
  }

  lemma NotDueIsNotBehind(st: Store, now: int, id: nat)
    requires id < |st.subscriptions| && id !in DueNow(st, now)
    ensures Behind(st.subscriptions[id], now) == 0
  {
    hide NextIndex;
  }

  lemma {:induction false} NoBacklog(subscriptions: seq<Subscription>, now: int)
    requires forall id :: 0 <= id < |subscriptions| ==> Behind(subscriptions[id], now) == 0
    ensures Backlog(subscriptions, now) == 0
  {
    hide Behind;
    if subscriptions != [] {
      NoBacklog(subscriptions[..|subscriptions| - 1], now);
    }
  }

  lemma {:induction false} BacklogIsEveryRow(subscriptions: seq<Subscription>, now: int, id: nat)
    requires Backlog(subscriptions, now) == 0 && id < |subscriptions|
    ensures Behind(subscriptions[id], now) == 0
  {
    hide Behind;
    var n := |subscriptions| - 1;
    if id < n {
      BacklogIsEveryRow(subscriptions[..n], now, id);
      assert subscriptions[..n][id] == subscriptions[id];
    }
  }

  /** As many sweeps as there are anniversaries outstanding are enough, in whatever batches they listed them:
      then every subscription that renews has exactly the anniversaries up to `now` invoiced, each once. */
  lemma SweepsCatchUp(st: Store, now: int, qs: seq<Inputs>, id: nat, start: int)
    requires StoreInv(st) && InvoicedBy(st, now) && CouldSweep(st, now, qs)
    requires |qs| >= Backlog(st.subscriptions, now)
    requires id < |Sweeps(st, qs).subscriptions| && WillRenew(Sweeps(st, qs).subscriptions[id])
    ensures Sweeps(st, qs).subscriptions[id].renewsAt > now
    ensures CountPeriod(Sweeps(st, qs).invoices, Period(id, start))
            == if HasComeDue(Sweeps(st, qs).subscriptions[id], start, now) then 1 else 0
  {
    hide StoreInv, Sweeps, CouldSweep, HasComeDue, Behind, CountPeriod;
    SweepsShortenBacklog(st, now, qs);
    var after := Sweeps(st, qs);
    BacklogIsEveryRow(after.subscriptions, now, id);
    RenewingAndNotBehind(after, now, id);
    CaughtUpIsExact(System(after, map[]), now, id, start);
  }

  lemma RenewingAndNotBehind(st: Store, now: int, id: nat)
    requires StoreInv(st) && id < |st.subscriptions|
    requires WillRenew(st.subscriptions[id]) && Behind(st.subscriptions[id], now) == 0
    ensures st.subscriptions[id].renewsAt > now
  {
    hide StoreInv, Behind;
    if st.subscriptions[id].renewsAt <= now {
      RenewedIsLessBehind(st, id, now);
    }
  }

  /** Once caught up, a further sweep issues nothing. */
  lemma FurtherSweepIssuesNothing(st: Store, now: int, qs: seq<Inputs>, q: Inputs)
    requires StoreInv(st) && InvoicedBy(st, now) && CouldSweep(st, now, qs)
    requires |qs| >= Backlog(st.subscriptions, now)
    requires CouldReturn(Sweeps(st, qs), now, q)
    ensures SweepOnce(Sweeps(st, qs), q).invoices == Sweeps(st, qs).invoices
  {
    hide StoreInv, Sweeps, CouldSweep, ExpireRows, ReassessRows, IsDue, IsRunOut, IsAssessed, InvoicedBy;
    SweepsShortenBacklog(st, now, qs);
    var after := Sweeps(st, qs);
    SweepShortensBacklog(after, now, q);
    assert q.due == [];
    ExpireRowsEffect(after, q.expired, now);
    ReassessRowsEffect(RenewRows(ExpireRows(after, q.expired), q.due, q.clock), q.assessed, now);
  }
}
