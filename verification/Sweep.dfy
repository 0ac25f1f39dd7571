/**
 One sweep that nothing interrupts (backend/src/plans/renewals.service.ts): expire what was cancelled and
 has run out, renew what is due, then re-assess arrears. What each query returns is a parameter: any
 list the query could return.
 */
module Sweep {
  import opened Numbers
  import opened Options
  import opened Calendar
  import opened Billing
  import opened Renewal
  import opened RenewalProtocol
  import opened Sequences

  const BATCH := 100

  // ---------- What the queries return ----------

  /** `ids` lists `take` of the rows found, or all of them when there are no more. */
  predicate Listed(ids: seq<nat>, found: set<nat>, take: nat) {
    Distinct(ids) && (forall id :: id in ids ==> id in found) && |ids| == Min(take, |found|)
  }

  lemma {:induction false} ListsAll(ids: seq<nat>, found: set<nat>)
    requires Distinct(ids) && (forall id :: id in ids ==> id in found) && |ids| == |found|
    ensures forall id :: id in found ==> id in ids
  {
    if ids != [] {
      var n := |ids| - 1;
      ListsAll(ids[..n], found - {ids[n]});
      assert forall id :: id in found ==> id == ids[n] || id in found - {ids[n]};
    }
  }

  function Ids(rows: seq<Due>): (ids: seq<nat>)
    ensures |ids| == |rows| && forall i :: 0 <= i < |rows| ==> ids[i] == rows[i].subscription
  {
    seq(|rows|, i requires 0 <= i < |rows| => rows[i].subscription)
  }

  function DueNow(st: Store, now: int): set<nat> {
    set id | 0 <= id < |st.subscriptions| && IsDue(st, Due(id, st.subscriptions[id].renewsAt), now)
  }

  function RunOutNow(st: Store, now: int): set<nat> {
    set id | 0 <= id < |st.subscriptions| && IsRunOut(st, Due(id, st.subscriptions[id].renewsAt), now)
  }

  function LiveNow(st: Store): set<nat> {
    set id | 0 <= id < |st.subscriptions| && Live(st.subscriptions[id].status)
  }

  /** A result of the query for what is due: earliest renewal date first. */
  predicate DueListing(st: Store, now: int, rows: seq<Due>) {
    && (forall r :: r in rows ==> IsDue(st, r, now))
    && Listed(Ids(rows), DueNow(st, now), BATCH)
    && (forall i, j :: 0 <= i < j < |rows| ==> rows[i].renewsAt <= rows[j].renewsAt)
    && (forall id :: id in DueNow(st, now) && id !in Ids(rows) ==>
          forall r :: r in rows ==> r.renewsAt <= st.subscriptions[id].renewsAt)
  }

  predicate RunOutListing(st: Store, now: int, rows: seq<Due>) {
    (forall r :: r in rows ==> IsRunOut(st, r, now)) && Listed(Ids(rows), RunOutNow(st, now), BATCH)
  }

  function AssessedIds(rows: seq<Assessed>): (ids: seq<nat>)
    ensures |ids| == |rows| && forall i :: 0 <= i < |rows| ==> ids[i] == rows[i].subscription
  {
    seq(|rows|, i requires 0 <= i < |rows| => rows[i].subscription)
  }

  /** A row as it is assessed when nothing is written between the two queries. */
  predicate IsAssessed(st: Store, row: Assessed, now: int) {
    IsSeen(st, row) && row.owes == Owes(st, st.subscriptions[row.subscription].customer, now)
  }

  predicate ArrearsListing(st: Store, now: int, rows: seq<Assessed>) {
    (forall r :: r in rows ==> IsAssessed(st, r, now)) && Listed(AssessedIds(rows), LiveNow(st), BATCH)
  }

  // ---------- The phases ----------

  datatype Outcome =
    | Skipped
    | Failed(reason: Reading)
    | NumberClash
    | Renewed(alreadyInvoiced: bool, advanced: bool)

  /** `renew`, run to its end with nobody else writing. */
  function RenewAlone(st: Store, id: nat, pin: Option<int>, now: int): (Store, Outcome) {
    var r := ReadForRenewal(st, id, pin);
    if r == NotThatPeriod then (st, Skipped)
    else if !r.Renewable? then (st, Failed(r))
    else
      var (issued, result) := IssueIn(st, RenewalDraft(r.customer, id, r.periodStart), now);
      if result == DuplicateNumber then (issued, NumberClash)
      else (AdvanceIn(issued, id, r.periodStart, r.renewsAt),
            Renewed(result == DuplicatePeriod,
                    id < |issued.subscriptions| && issued.subscriptions[id].renewsAt == r.periodStart))
  }

  function RenewRows(st: Store, rows: seq<Due>, clock: nat -> int): Store
    decreases |rows|
  {
    if rows == [] then st
    else
      var n := |rows| - 1;
      var before := RenewRows(st, rows[..n], clock);
      RenewAlone(before, rows[n].subscription, Some(rows[n].renewsAt), clock(n)).0
  }

  /** The listed rows whose period somebody else had invoiced. */
  function Recovered(invoices: seq<Invoice>, rows: seq<Due>): seq<nat>
    decreases |rows|
  {
    if rows == [] then []
    else
      var n := |rows| - 1;
      var period := Period(rows[n].subscription, rows[n].renewsAt);
      Recovered(invoices, rows[..n]) + if CountPeriod(invoices, period) > 0 then [rows[n].subscription] else []
  }

  function ExpireRows(st: Store, rows: seq<Due>): Store
    decreases |rows|
  {
    if rows == [] then st
    else
      var n := |rows| - 1;
      ExpireIn(ExpireRows(st, rows[..n]), rows[n].subscription, rows[n].renewsAt)
  }

  function ReassessRows(st: Store, rows: seq<Assessed>): Store
    decreases |rows|
  {
    if rows == [] then st
    else
      var n := |rows| - 1;
      ReassessIn(ReassessRows(st, rows[..n]), rows[n].subscription, rows[n].seen, rows[n].owes)
  }

  function Target(owes: bool): Status {
    if owes then PastDue else Active
  }

  /** The assessed rows that are found to owe, or not to, and were not in that status already. */
  function Moved(rows: seq<Assessed>, owes: bool): seq<nat>
    decreases |rows|
  {
    if rows == [] then []
    else
      var n := |rows| - 1;
      var row := rows[n];
      Moved(rows[..n], owes) + if row.owes == owes && row.seen != Target(owes) then [row.subscription] else []
  }

  /** What a renewal that issues writes: one more document, an unpaid tax invoice to the subscription's own customer
      for the period that is beginning, due when it begins. */
  lemma RenewalBills(st: Store, id: nat, pin: Option<int>, now: int)
    requires Gapless(st) && ReadForRenewal(st, id, pin).Renewable?
    requires CountPeriod(st.invoices, Period(id, st.subscriptions[id].renewsAt)) == 0
    ensures var after, s, n := RenewAlone(st, id, pin, now).0, st.subscriptions[id], |st.invoices|;
            |after.invoices| == n + 1 && after.invoices[..n] == st.invoices
            && after.invoices[n].status == Issued && after.invoices[n].draft.customer == s.customer
            && after.invoices[n].draft.kind == TaxInvoice && after.invoices[n].draft.against.None?
            && after.invoices[n].draft.period == Some(Period(id, s.renewsAt))
            && after.invoices[n].draft.dueAt == Some(s.renewsAt)
  {
    hide RenewalDateAfter, IssueIn, Gapless, CountPeriod;
    var draft := RenewalDraft(st.subscriptions[id].customer, id, st.subscriptions[id].renewsAt);
    IssueKeepsGapless(st, draft, now);
    IssueCounts(st, draft, now, Period(id, st.subscriptions[id].renewsAt));
    IssuedDocument(st, draft, now);
  }

  /** When there is nothing to renew, and nothing is written: no such row, a row that is cancelled or expired, or
      not the period asked for. In every other case the date is moved. */
  lemma RenewedIff(st: Store, id: nat, pin: Option<int>, now: int)
    requires StoreInv(st)
    ensures var (after, outcome) := RenewAlone(st, id, pin, now);
            var canRenew := id < |st.subscriptions|
                            && st.subscriptions[id].status != Cancelled && st.subscriptions[id].status != Expired
                            && (pin.Some? ==> pin.value == st.subscriptions[id].renewsAt);
            (outcome.Renewed? <==> canRenew) && (!canRenew ==> after == st)
            && (outcome == Skipped <==>
                  id < |st.subscriptions| && Live(st.subscriptions[id].status)
                  && pin.Some? && pin.value != st.subscriptions[id].renewsAt)
            && (canRenew ==> outcome.advanced
                             && after.subscriptions == st.subscriptions[id := RenewedRow(st.subscriptions[id])])
  {
    hide Gapless, ExactlyOnce, IssueIn, RenewalDateAfter;
    if ReadForRenewal(st, id, pin).Renewable? {
      var draft := RenewalDraft(st.subscriptions[id].customer, id, st.subscriptions[id].renewsAt);
      IssueKeepsGapless(st, draft, now);
      IssueKeepsSubscriptions(st, draft, now);
    }
  }

  /** The rows reported as already invoiced are those whose period has a document. */
  lemma {:induction false} RecoveredIs(invoices: seq<Invoice>, rows: seq<Due>, id: nat)
    ensures id in Recovered(invoices, rows)
            <==> exists i, k :: 0 <= i < |rows| && rows[i].subscription == id && 0 <= k < |invoices|
                                && invoices[k].draft.period == Some(Period(id, rows[i].renewsAt))
    decreases |rows|
  {
    hide CountPeriod;
    if rows != [] {
      var n := |rows| - 1;
      RecoveredIs(invoices, rows[..n], id);
      CountIsZeroIff(invoices, Period(rows[n].subscription, rows[n].renewsAt));
      assert forall i :: 0 <= i < n ==> rows[..n][i] == rows[i];
    }
  }

  // ---------- A phase alone is a run of the protocol ----------

  /** The events of one worker that renews one row with nobody in between. */
  function RenewalEvents(w: nat, st: Store, id: nat, pin: int, now: int): seq<Event> {
    if !ReadForRenewal(st, id, Some(pin)).Renewable? then [ReadRow(w)]
    else
      var r := ReadForRenewal(st, id, Some(pin));
      match IssueIn(st, RenewalDraft(r.customer, id, r.periodStart), now).1
      case Numbered(_) => [ReadRow(w), Issue(w, now), Advance(w)]
      case DuplicatePeriod => [ReadRow(w), Issue(w, now), Recover(w), Advance(w)]
      case DuplicateNumber => [ReadRow(w), Issue(w, now)]
  }

  /** A worker that has read a row it can renew. */
  function ReadBy(sys: System, w: nat, id: nat, pin: int, todo: seq<Due>): System
    requires ReadForRenewal(sys.store, id, Some(pin)).Renewable?
  {
    var r := ReadForRenewal(sys.store, id, Some(pin));
    System(sys.store, sys.tasks[w := Issuing(id, r.customer, r.periodStart, r.renewsAt, todo)])
  }

  lemma ReadingIsAStep(sys: System, w: nat, id: nat, pin: int, todo: seq<Due>)
    requires w in sys.tasks && sys.tasks[w] == Reading(id, Some(pin), todo)
    ensures Enabled(sys, ReadRow(w))
    ensures if ReadForRenewal(sys.store, id, Some(pin)).Renewable?
            then Apply(sys, ReadRow(w)) == ReadBy(sys, w, id, pin, todo)
            else Apply(sys, ReadRow(w)) == System(sys.store, sys.tasks[w := Sweeping(todo)])
  {
    hide ReadForRenewal;
  }

  lemma AdvancingIsAStep(sys: System, w: nat, id: nat, periodStart: int, renewsAt: int, todo: seq<Due>)
    requires w in sys.tasks && sys.tasks[w] == Advancing(id, periodStart, renewsAt, todo)
    ensures Enabled(sys, Advance(w))
    ensures Apply(sys, Advance(w))
            == System(AdvanceIn(sys.store, id, periodStart, renewsAt), sys.tasks[w := Sweeping(todo)])
  {
    hide AdvanceIn;
  }

  /** What issuing does to a worker, by its result. */
  lemma IssuingIsAStep(sys: System, w: nat, t: Task, now: int)
    requires w in sys.tasks && sys.tasks[w] == t && t.Issuing?
    ensures Enabled(sys, Issue(w, now))
    ensures var (issued, result) := IssueIn(sys.store, RenewalDraft(t.customer, t.subscription, t.periodStart), now);
            var advancing := Advancing(t.subscription, t.periodStart, t.renewsAt, t.todo);
            if result.Numbered? then Apply(sys, Issue(w, now)) == System(issued, sys.tasks[w := advancing])
            else if result == DuplicatePeriod then
              var refused := Apply(sys, Issue(w, now));
              Enabled(refused, Recover(w)) && Apply(refused, Recover(w)) == System(issued, sys.tasks[w := advancing])
            else Apply(sys, Issue(w, now)) == System(issued, sys.tasks[w := Sweeping(t.todo)])
  {
    hide IssueIn, PeriodTaken;
    var draft := RenewalDraft(t.customer, t.subscription, t.periodStart);
    if IssueIn(sys.store, draft, now).1 == DuplicatePeriod {
      RefusedIsTaken(sys.store, draft, now);
      var recovering := Recovering(t.subscription, t.periodStart, t.renewsAt, t.todo);
      assert Apply(sys, Issue(w, now)) == System(sys.store, sys.tasks[w := recovering]);
      var advancing := Advancing(t.subscription, t.periodStart, t.renewsAt, t.todo);
      assert sys.tasks[w := recovering][w := advancing] == sys.tasks[w := advancing];
    }
  }

  /** `RenewAlone` is what a worker does when it is not interrupted. */
  lemma RenewAloneIsARun(sys: System, w: nat, id: nat, pin: int, todo: seq<Due>, now: int)
    requires w in sys.tasks && sys.tasks[w] == Reading(id, Some(pin), todo)
    ensures var events := RenewalEvents(w, sys.store, id, pin, now);
            ValidRun(sys, events)
            && AfterRun(sys, events)
                == System(RenewAlone(sys.store, id, Some(pin), now).0, sys.tasks[w := Sweeping(todo)])
  {
    hide IssueIn, ReadForRenewal, AdvanceIn, ValidRun, AfterRun, Enabled, Apply;
    ReadingIsAStep(sys, w, id, pin, todo);
    var r := ReadForRenewal(sys.store, id, Some(pin));
    if r.Renewable? {
      var read := ReadBy(sys, w, id, pin, todo);
      IssuingIsAStep(read, w, read.tasks[w], now);
      var (issued, result) := IssueIn(sys.store, RenewalDraft(r.customer, id, r.periodStart), now);
      var advancing := Advancing(id, r.periodStart, r.renewsAt, todo);
      assert read.tasks[w := advancing] == sys.tasks[w := advancing];
      AdvancingIsAStep(System(issued, sys.tasks[w := advancing]), w, id, r.periodStart, r.renewsAt, todo);
      assert sys.tasks[w := advancing][w := Sweeping(todo)] == sys.tasks[w := Sweeping(todo)];
      match result
      case Numbered(_) => RunOfThree(sys, ReadRow(w), Issue(w, now), Advance(w));
      case DuplicatePeriod => RunOfFour(sys, ReadRow(w), Issue(w, now), Recover(w), Advance(w));
      case DuplicateNumber =>
        assert read.tasks[w := Sweeping(todo)] == sys.tasks[w := Sweeping(todo)];
        RunOfTwo(sys, ReadRow(w), Issue(w, now));
    } else {
      RunOfOne(sys, ReadRow(w));
    }
  }

  lemma RunOfOne(sys: System, a: Event)
    requires Enabled(sys, a)
    ensures ValidRun(sys, [a]) && AfterRun(sys, [a]) == Apply(sys, a)
  {
    hide Enabled, Apply;
    assert [a][1..] == [];
  }

  lemma RefusedIsTaken(st: Store, draft: Draft, now: int)
    requires IssueIn(st, draft, now).1 == DuplicatePeriod
    ensures PeriodTaken(st.invoices, draft.period) && IssueIn(st, draft, now).0 == st
  {
    hide FinancialYearFor, NumberTaken;
  }

  lemma RunOfTwo(sys: System, a: Event, b: Event)
    requires Enabled(sys, a) && Enabled(Apply(sys, a), b)
    ensures ValidRun(sys, [a, b]) && AfterRun(sys, [a, b]) == Apply(Apply(sys, a), b)
  {
    hide Enabled, Apply;
    assert [a, b][1..] == [b] && [b][1..] == [];
    assert ValidRun(Apply(sys, a), [b]) && AfterRun(Apply(sys, a), [b]) == Apply(Apply(sys, a), b);
  }

  lemma RunOfThree(sys: System, a: Event, b: Event, c: Event)
    requires Enabled(sys, a) && Enabled(Apply(sys, a), b) && Enabled(Apply(Apply(sys, a), b), c)
    ensures ValidRun(sys, [a, b, c]) && AfterRun(sys, [a, b, c]) == Apply(Apply(Apply(sys, a), b), c)
  {
    hide Enabled, Apply;
    assert [a, b, c][1..] == [b, c];
    RunOfTwo(Apply(sys, a), b, c);
  }

  lemma RunOfFour(sys: System, a: Event, b: Event, c: Event, d: Event)
    requires Enabled(sys, a) && Enabled(Apply(sys, a), b) && Enabled(Apply(Apply(sys, a), b), c)
    requires Enabled(Apply(Apply(Apply(sys, a), b), c), d)
    ensures ValidRun(sys, [a, b, c, d]) && AfterRun(sys, [a, b, c, d]) == Apply(Apply(Apply(Apply(sys, a), b), c), d)
  {
    hide Enabled, Apply;
    assert [a, b, c, d][1..] == [b, c, d];
    RunOfThree(Apply(sys, a), b, c, d);
  }

  // ---------- The effect of the phases ----------

  function RenewedRow(s: Subscription): Subscription {
    s.(renewsAt := RenewalDateAfter(s.startsAt, s.renewsAt, s.cycle))
  }

  lemma RenewAloneOfDue(st: Store, row: Due, due: int, now: int)
    requires StoreInv(st) && IsDue(st, row, due)
    ensures var id, (after, outcome) := row.subscription, RenewAlone(st, row.subscription, Some(row.renewsAt), now);
            var s := st.subscriptions[id];
            StoreInv(after)
            && after.subscriptions == st.subscriptions[id := RenewedRow(s)]
            && outcome == Renewed(CountPeriod(st.invoices, Period(id, row.renewsAt)) > 0, true)
    ensures forall p :: CountPeriod(RenewAlone(st, row.subscription, Some(row.renewsAt), now).0.invoices, p)
                        == if p == Period(row.subscription, row.renewsAt) then 1 else CountPeriod(st.invoices, p)
  {
    hide Gapless, ExactlyOnce, ReadEarlier, Later, IssueIn, CountPeriod, RenewalDateAfter;
    var id, s := row.subscription, st.subscriptions[row.subscription];
    var r := ReadForRenewal(st, id, Some(row.renewsAt));
    ReadIsEarlier(st, id, Some(row.renewsAt));
    var draft := RenewalDraft(r.customer, id, r.periodStart);
    var issued := IssueIn(st, draft, now).0;
    IssueKeepsGapless(st, draft, now);
    IssueKeepsExactlyOnce(st, draft, r.renewsAt, now);
    IssueKeepsSubscriptions(st, draft, now);
    ReadEarlierLasts(st, issued, id, r.periodStart, r.renewsAt);
    AdvanceKeepsExactlyOnce(issued, id, r.periodStart, r.renewsAt);
    IssueCounts(st, draft, now, Period(id, r.periodStart));
    forall p
      ensures CountPeriod(issued.invoices, p)
              == if p == Period(id, r.periodStart) then 1 else CountPeriod(st.invoices, p)
    {
      IssueCounts(st, draft, now, p);
      if p == Period(id, r.periodStart) {
        CurrentPeriodAtMostOnce(st, id);
      }
    }
  }

  lemma CurrentPeriodAtMostOnce(st: Store, id: nat)
    requires ExactlyOnce(st) && id < |st.subscriptions|
    ensures CountPeriod(st.invoices, Period(id, st.subscriptions[id].renewsAt)) <= 1
  {
    hide CountPeriod, Anniversary, Supported;
    assert Billed(st, id);
    var k :| BilledUpTo(st, id, k);
  }

  // ---------- An interrupted renewal heals ----------

  lemma RunOfTwoAndMore(sys: System, a: Event, b: Event, rest: seq<Event>)
    requires Enabled(sys, a) && Enabled(Apply(sys, a), b) && ValidRun(Apply(Apply(sys, a), b), rest)
    ensures ValidRun(sys, [a, b] + rest) && AfterRun(sys, [a, b] + rest) == AfterRun(Apply(Apply(sys, a), b), rest)
  {
    hide Enabled, Apply;
    assert ([a, b] + rest)[1..] == [b] + rest && ([b] + rest)[1..] == rest;
    assert ValidRun(Apply(sys, a), [b] + rest)
           && AfterRun(Apply(sys, a), [b] + rest) == AfterRun(Apply(Apply(sys, a), b), rest);
  }

  /** From every state the protocol keeps, whoever is in the middle of what and whoever died there, one idle
      worker can finish what is due: the date moves on by one period, and the period it stood at has exactly
      one invoice, a new one or the one an interrupted renewal left. */
  lemma InterruptedRenewalHeals(sys: System, w: nat, row: Due, due: int, now: int)
    requires Inv(sys) && w in sys.tasks && sys.tasks[w] == Idle && IsDue(sys.store, row, due)
    ensures var events := [ListDue(w, due, [row]), TakeRow(w)]
            + RenewalEvents(w, sys.store, row.subscription, row.renewsAt, now);
            ValidRun(sys, events)
            && AfterRun(sys, events).store.subscriptions
               == sys.store.subscriptions[row.subscription := RenewedRow(sys.store.subscriptions[row.subscription])]
            && forall p :: CountPeriod(AfterRun(sys, events).store.invoices, p)
                           == (if p == Period(row.subscription, row.renewsAt) then 1
                               else CountPeriod(sys.store.invoices, p))
  {
    hide StoreInv, TaskInv, RenewAlone, RenewalEvents, IsDue, ValidRun, AfterRun, CountPeriod, RenewedRow;
    var id := row.subscription;
    var taken := System(sys.store, sys.tasks[w := Reading(id, Some(row.renewsAt), [])]);
    FirstTwoSteps(sys, w, row, due);
    RenewAloneIsARun(taken, w, id, row.renewsAt, [], now);
    RunOfTwoAndMore(sys, ListDue(w, due, [row]), TakeRow(w), RenewalEvents(w, sys.store, id, row.renewsAt, now));
    RenewAloneOfDue(sys.store, row, due, now);
  }

  lemma FirstTwoSteps(sys: System, w: nat, row: Due, due: int)
    requires w in sys.tasks && sys.tasks[w] == Idle && IsDue(sys.store, row, due)
    ensures Enabled(sys, ListDue(w, due, [row]))
    ensures Enabled(Apply(sys, ListDue(w, due, [row])), TakeRow(w))
    ensures Apply(Apply(sys, ListDue(w, due, [row])), TakeRow(w))
            == System(sys.store, sys.tasks[w := Reading(row.subscription, Some(row.renewsAt), [])])
  {
    hide IsDue;
    var listed := System(sys.store, sys.tasks[w := Sweeping([row])]);
    assert Apply(sys, ListDue(w, due, [row])) == listed;
    assert [row][1..] == [];
    assert Apply(listed, TakeRow(w)).tasks == sys.tasks[w := Reading(row.subscription, Some(row.renewsAt), [])];
  }

  /** Renewing what is due moves exactly the listed rows, each by one period, and invoices exactly the
      periods they stood at. */
  lemma {:induction false} RenewRowsEffect(st: Store, rows: seq<Due>, due: int, clock: nat -> int)
    requires StoreInv(st) && Distinct(Ids(rows)) && forall r :: r in rows ==> IsDue(st, r, due)
    ensures var after := RenewRows(st, rows, clock);
            StoreInv(after)
            && |after.subscriptions| == |st.subscriptions|
            && forall id :: 0 <= id < |st.subscriptions| ==>
                 after.subscriptions[id]
                 == if id in Ids(rows) then RenewedRow(st.subscriptions[id]) else st.subscriptions[id]
    ensures forall p: Period :: CountPeriod(RenewRows(st, rows, clock).invoices, p)
                        == if Due(p.subscription, p.start) in rows then 1 else CountPeriod(st.invoices, p)
    decreases |rows|
  {
    hide StoreInv, RenewAlone, CountPeriod, RenewedRow;
    if rows != [] {
      var n := |rows| - 1;
      var row := rows[n];
      SplitLast(Ids(rows));
      assert Ids(rows)[..n] == Ids(rows[..n]);
      assert rows == rows[..n] + [row];
      RenewRowsEffect(st, rows[..n], due, clock);
      assert IsDue(st, row, due);
      var before := RenewRows(st, rows[..n], clock);
      RenewAloneOfDue(before, row, due, clock(n));
    }
  }

  lemma {:induction false} ExpireRowsEffect(st: Store, rows: seq<Due>, now: int)
    requires Distinct(Ids(rows)) && forall r :: r in rows ==> IsRunOut(st, r, now)
    ensures var after := ExpireRows(st, rows);
            after.invoices == st.invoices && after.counters == st.counters
            && |after.subscriptions| == |st.subscriptions|
            && forall id :: 0 <= id < |st.subscriptions| ==>
                 after.subscriptions[id]
                 == if id in Ids(rows) then st.subscriptions[id].(status := Expired) else st.subscriptions[id]
    decreases |rows|
  {
    if rows != [] {
      var n := |rows| - 1;
      SplitLast(Ids(rows));
      assert Ids(rows)[..n] == Ids(rows[..n]);
      ExpireRowsEffect(st, rows[..n], now);
      assert IsRunOut(st, rows[n], now);
    }
  }

  lemma {:induction false} ReassessRowsEffect(st: Store, rows: seq<Assessed>, now: int)
    requires Distinct(AssessedIds(rows)) && forall r :: r in rows ==> IsAssessed(st, r, now)
    ensures var after := ReassessRows(st, rows);
            after.invoices == st.invoices && after.counters == st.counters
            && |after.subscriptions| == |st.subscriptions|
            && forall id :: 0 <= id < |st.subscriptions| ==>
                 after.subscriptions[id]
                 == if id in AssessedIds(rows)
                    then st.subscriptions[id].(status := Target(Owes(st, st.subscriptions[id].customer, now)))
                    else st.subscriptions[id]
    decreases |rows|
  {
    hide Owes;
    if rows != [] {
      var n := |rows| - 1;
      SplitLast(AssessedIds(rows));
      assert AssessedIds(rows)[..n] == AssessedIds(rows[..n]);
      ReassessRowsEffect(st, rows[..n], now);
      assert IsAssessed(st, rows[n], now);
    }
  }

  /** What is reported as moved is exactly what moved. */
  lemma {:induction false} MovedIs(st: Store, rows: seq<Assessed>, now: int, owes: bool)
    requires Distinct(AssessedIds(rows)) && forall r :: r in rows ==> IsAssessed(st, r, now)
    ensures forall id: nat :: id in Moved(rows, owes) <==>
              id in AssessedIds(rows) && id < |st.subscriptions| && st.subscriptions[id].status != Target(owes)
              && Owes(st, st.subscriptions[id].customer, now) == owes
    decreases |rows|
  {
    hide Owes;
    if rows != [] {
      var n := |rows| - 1;
      SplitLast(AssessedIds(rows));
      assert AssessedIds(rows)[..n] == AssessedIds(rows[..n]);
      MovedIs(st, rows[..n], now, owes);
      assert IsAssessed(st, rows[n], now);
    }
  }

  lemma MovedHasMoved(st: Store, rows: seq<Assessed>, now: int, owes: bool)
    requires ArrearsListing(st, now, rows)
    ensures var after := ReassessRows(st, rows);
            |after.subscriptions| == |st.subscriptions|
            && forall id: nat :: id in Moved(rows, owes) <==>
                 id < |st.subscriptions| && st.subscriptions[id].status != after.subscriptions[id].status
                 && after.subscriptions[id].status == Target(owes)
  {
    hide Owes, ReassessRows, IsAssessed, Moved;
    MovedIs(st, rows, now, owes);
    ReassessRowsEffect(st, rows, now);
    ListedIsThere(st, rows, now);
  }

  lemma ListedIsThere(st: Store, rows: seq<Assessed>, now: int)
    requires forall r :: r in rows ==> IsAssessed(st, r, now)
    ensures forall id: nat :: id in AssessedIds(rows) ==> id < |st.subscriptions|
  {
    hide Owes;
    forall i | 0 <= i < |rows|
      ensures AssessedIds(rows)[i] < |st.subscriptions|
    {
      assert IsAssessed(st, rows[i], now);
    }
  }

  // ---------- The whole sweep ----------

  datatype Inputs = Inputs(expired: seq<Due>, due: seq<Due>, assessed: seq<Assessed>, clock: nat -> int)

  function SweepOnce(st: Store, q: Inputs): Store {
    ReassessRows(RenewRows(ExpireRows(st, q.expired), q.due, q.clock), q.assessed)
  }

  /** `q` is what the queries of a sweep at `now` could return, each in the state its phase starts from. */
  predicate CouldReturn(st: Store, now: int, q: Inputs) {
    var st1 := ExpireRows(st, q.expired);
    var st2 := RenewRows(st1, q.due, q.clock);
    RunOutListing(st, now, q.expired) && DueListing(st1, now, q.due) && ArrearsListing(st2, now, q.assessed)
  }

  lemma ExpireRowsKeep(st: Store, rows: seq<Due>, now: int)
    requires StoreInv(st) && RunOutListing(st, now, rows)
    ensures StoreInv(ExpireRows(st, rows))
  {
    hide StoreInv, ExpireRows, Later;
    ExpireRowsEffect(st, rows, now);
    StatusStepKeeps(st, ExpireRows(st, rows));
  }

  lemma ReassessRowsKeep(st: Store, rows: seq<Assessed>, now: int)
    requires StoreInv(st) && ArrearsListing(st, now, rows)
    ensures StoreInv(ReassessRows(st, rows))
  {
    hide StoreInv, ReassessRows, Later, Owes;
    ReassessRowsEffect(st, rows, now);
    StatusStepKeeps(st, ReassessRows(st, rows));
  }

  lemma SweepKeepsInv(st: Store, now: int, q: Inputs)
    requires StoreInv(st) && CouldReturn(st, now, q)
    ensures StoreInv(SweepOnce(st, q))
  {
    hide StoreInv, ExpireRows, RenewRows, ReassessRows, RunOutListing, ArrearsListing, IsDue, CountPeriod;
    var st1 := ExpireRows(st, q.expired);
    ExpireRowsKeep(st, q.expired, now);
    RenewRowsEffect(st1, q.due, now, q.clock);
    ReassessRowsKeep(RenewRows(st1, q.due, q.clock), q.assessed, now);
  }

  lemma RunOutMeans(st: Store, id: nat, now: int)
    ensures id in RunOutNow(st, now)
            <==> id < |st.subscriptions|
                 && var s := st.subscriptions[id];
                    (s.status == Active || s.status == PastDue) && s.cancelledAt.Some? && !s.autoRenew
                    && s.renewsAt <= now
  {
  }

  /** A sweep ends everything that was cancelled and has run out, without invoicing it. */
  lemma SweepExpires(st: Store, now: int, q: Inputs, id: nat)
    requires StoreInv(st) && CouldReturn(st, now, q)
    requires |RunOutNow(st, now)| <= BATCH && id < |st.subscriptions|
    requires var s := st.subscriptions[id];
             (s.status == Active || s.status == PastDue) && s.cancelledAt.Some? && !s.autoRenew && s.renewsAt <= now
    ensures id < |SweepOnce(st, q).subscriptions| && SweepOnce(st, q).subscriptions[id].status == Expired
    ensures forall start ::
            CountPeriod(SweepOnce(st, q).invoices, Period(id, start)) == CountPeriod(st.invoices, Period(id, start))
  {
    hide StoreInv, ExpireRows, RenewRows, ReassessRows, Owes, CountPeriod, RenewedRow;
    var st1 := ExpireRows(st, q.expired);
    var st2 := RenewRows(st1, q.due, q.clock);
    ListsAll(Ids(q.expired), RunOutNow(st, now));
    ExpireRowsEffect(st, q.expired, now);
    assert st1.subscriptions[id].status == Expired;
    ExpireRowsKeep(st, q.expired, now);
    RenewRowsEffect(st1, q.due, now, q.clock);
    forall i | 0 <= i < |q.due|
      ensures q.due[i].subscription != id
    {
      assert IsDue(st1, q.due[i], now);
    }
    ReassessRowsEffect(st2, q.assessed, now);
    forall i | 0 <= i < |q.assessed|
      ensures q.assessed[i].subscription != id
    {
      assert IsAssessed(st2, q.assessed[i], now);
    }
  }

  /** After a sweep a live subscription is past due exactly when its customer has an issued invoice whose
      due date is before `now`. */
  lemma SweepSettlesArrears(st: Store, now: int, q: Inputs, id: nat)
    requires StoreInv(st) && CouldReturn(st, now, q)
    requires |LiveNow(RenewRows(ExpireRows(st, q.expired), q.due, q.clock))| <= BATCH
    requires id < |SweepOnce(st, q).subscriptions| && Live(SweepOnce(st, q).subscriptions[id].status)
    ensures var after := SweepOnce(st, q);
            after.subscriptions[id].status == PastDue
            <==> exists i :: 0 <= i < |after.invoices| && after.invoices[i].status == Issued
                             && after.invoices[i].draft.customer == after.subscriptions[id].customer
                             && after.invoices[i].draft.dueAt.Some? && after.invoices[i].draft.dueAt.value < now
  {
    hide StoreInv, ExpireRows, RenewRows, ReassessRows, Owes, IsDue, IsRunOut;
    var st2 := RenewRows(ExpireRows(st, q.expired), q.due, q.clock);
    ListsAll(AssessedIds(q.assessed), LiveNow(st2));
    ReassessRowsEffect(st2, q.assessed, now);
    OwesMeans(SweepOnce(st, q), SweepOnce(st, q).subscriptions[id].customer, now);
    OwesByInvoices(st2, SweepOnce(st, q), SweepOnce(st, q).subscriptions[id].customer, now);
  }

  lemma OwesMeans(st: Store, customer: nat, now: int)
    ensures Owes(st, customer, now)
            <==> exists i :: 0 <= i < |st.invoices| && st.invoices[i].draft.customer == customer
                             && st.invoices[i].status == Issued && st.invoices[i].draft.dueAt.Some?
                             && st.invoices[i].draft.dueAt.value < now
  {
  }

  /** A customer all of whose documents are paid, void or not yet due is in no arrears after a sweep. */
  lemma PaidUpIsActive(st: Store, now: int, q: Inputs, id: nat)
    requires StoreInv(st) && CouldReturn(st, now, q)
    requires |LiveNow(RenewRows(ExpireRows(st, q.expired), q.due, q.clock))| <= BATCH
    requires id < |SweepOnce(st, q).subscriptions|
    requires SweepOnce(st, q).subscriptions[id].status == Active || SweepOnce(st, q).subscriptions[id].status == PastDue
    requires forall i :: 0 <= i < |SweepOnce(st, q).invoices| ==>
               var row := SweepOnce(st, q).invoices[i];
               row.draft.customer == SweepOnce(st, q).subscriptions[id].customer ==>
                 row.status == Paid || row.status == Void || row.draft.dueAt.None? || now <= row.draft.dueAt.value
    ensures SweepOnce(st, q).subscriptions[id].status == Active
  {
    hide StoreInv, CouldReturn, SweepOnce, ExpireRows, RenewRows, LiveNow;
    SweepSettlesArrears(st, now, q, id);
  }

  /** A sweep leaves alone what is not due: the date and the documents of such a row, and whether it is live. */
  lemma SweepLeavesAlone(st: Store, now: int, q: Inputs, id: nat, start: int)
    requires StoreInv(st) && CouldReturn(st, now, q)
    requires id < |st.subscriptions| && st.subscriptions[id].renewsAt > now
    ensures var after := SweepOnce(st, q);
            id < |after.subscriptions| && after.subscriptions[id].renewsAt == st.subscriptions[id].renewsAt
            && (Live(after.subscriptions[id].status) <==> Live(st.subscriptions[id].status))
            && CountPeriod(after.invoices, Period(id, start)) == CountPeriod(st.invoices, Period(id, start))
  {
    hide StoreInv, ExpireRows, RenewRows, ReassessRows, Owes, CountPeriod, RenewedRow;
    var st1 := ExpireRows(st, q.expired);
    var st2 := RenewRows(st1, q.due, q.clock);
    ExpireRowsEffect(st, q.expired, now);
    NotListed(st, q.expired, now, id);
    ExpireRowsKeep(st, q.expired, now);
    RenewRowsEffect(st1, q.due, now, q.clock);
    forall i | 0 <= i < |q.due|
      ensures q.due[i].subscription != id
    {
      assert IsDue(st1, q.due[i], now);
    }
    ReassessRowsEffect(st2, q.assessed, now);
    forall i | 0 <= i < |q.assessed| && AssessedIds(q.assessed)[i] == id
      ensures Live(st2.subscriptions[id].status)
    {
      assert IsAssessed(st2, q.assessed[i], now);
    }
  }

  lemma NotListed(st: Store, rows: seq<Due>, now: int, id: nat)
    requires id < |st.subscriptions| && st.subscriptions[id].renewsAt > now
    requires forall r :: r in rows ==> IsRunOut(st, r, now)
    ensures id !in Ids(rows)
  {
    forall i | 0 <= i < |rows|
      ensures rows[i].subscription != id
    {
      assert IsRunOut(st, rows[i], now);
    }
  }

  /** What a sweep reports as newly past due, or cleared, is exactly what it made so. */
  lemma SweepMoves(st: Store, now: int, q: Inputs, owes: bool)
    requires StoreInv(st) && CouldReturn(st, now, q)
    ensures var after := SweepOnce(st, q);
            |after.subscriptions| == |st.subscriptions|
            && forall id: nat :: id in Moved(q.assessed, owes) <==>
                 id < |st.subscriptions| && st.subscriptions[id].status != Target(owes)
                 && after.subscriptions[id].status == Target(owes)
  {
    hide StoreInv, ExpireRows, RenewRows, ReassessRows, Owes, CountPeriod, RenewalDateAfter, IsDue, Moved;
    var st1 := ExpireRows(st, q.expired);
    var st2 := RenewRows(st1, q.due, q.clock);
    ExpireRowsEffect(st, q.expired, now);
    ExpireRowsKeep(st, q.expired, now);
    RenewRowsEffect(st1, q.due, now, q.clock);
    MovedHasMoved(st2, q.assessed, now, owes);
    ReassessRowsEffect(st2, q.assessed, now);
    forall i | 0 <= i < |q.expired|
      ensures Ids(q.expired)[i] < |st.subscriptions| && Live(st.subscriptions[Ids(q.expired)[i]].status)
    {
      assert IsRunOut(st, q.expired[i], now);
    }
    forall i | 0 <= i < |q.assessed|
      ensures AssessedIds(q.assessed)[i] < |st2.subscriptions|
      ensures Live(st2.subscriptions[AssessedIds(q.assessed)[i]].status)
    {
      assert IsAssessed(st2, q.assessed[i], now);
    }
  }

  lemma OwesByInvoices(st: Store, after: Store, customer: nat, now: int)
    requires st.invoices == after.invoices
    ensures Owes(st, customer, now) == Owes(after, customer, now)
  {
  }
}
