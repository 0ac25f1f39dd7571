/**
 The services as they run, one statement after another, over the tables they update in place
 (backend/src/billing/invoice.service.ts, backend/src/plans/subscriptions.service.ts,
 backend/src/plans/renewals.service.ts). Each method is proved to do what the specification functions of
 Billing, Renewal and Sweep say; what those promise is proved there.
 */
module BillingServices {
  import opened Options
  import opened Calendar
  import opened Billing
  import opened Renewal
  import opened RenewalProtocol
  import opened Sequences
  import opened Sweep

  datatype SweepSummary = SweepSummary(
    expired: seq<nat>, renewed: seq<nat>, alreadyInvoiced: seq<nat>, skipped: seq<nat>, failed: seq<nat>,
    markedPastDue: seq<nat>, clearedPastDue: seq<nat>)

  class BillingService {
    var subscriptions: seq<Subscription>
    var invoices: seq<Invoice>
    var counters: map<int, nat>

    function Value(): Store
      reads this
    {
      Store(subscriptions, invoices, counters)
    }

    constructor ()
      ensures Value() == EMPTY_STORE
    {
      subscriptions, invoices, counters := [], [], map[];
    }

    // ---------- Invoices ----------

    /** The upsert: the first number of a year is 1, every other one more than the last. */
    method AllocateSerial(year: int) returns (serial: nat)
      modifies this`counters
      ensures serial == Counter(old(Value()), year) + 1
      ensures counters == old(counters)[year := serial]
    {
      serial := (if year in counters then counters[year] else 0) + 1;
      counters := counters[year := serial];
    }

    /** Allocates and inserts in one transaction; a refused insert rolls the allocation back. */
    method Issue(draft: Draft, issuedAt: int) returns (result: IssueResult)
      modifies this`invoices, this`counters
      ensures (Value(), result) == IssueIn(old(Value()), draft, issuedAt)
    {
      var saved := counters;
      var year := FinancialYearFor(issuedAt);
      var serial := AllocateSerial(year);
      if PeriodTaken(invoices, draft.period) {
        counters := saved;
        return DuplicatePeriod;
      }
      if NumberTaken(invoices, year, serial) {
        counters := saved;
        return DuplicateNumber;
      }
      result := Numbered(|invoices|);
      invoices := invoices + [Invoice(draft, year, serial, Issued)];
    }

    /** The row of a period, if there is one. */
    method ForPeriod(period: Period) returns (id: Option<nat>)
      ensures id.Some? ==> id.value < |invoices| && invoices[id.value].draft.period == Some(period)
      ensures id.None? <==> CountPeriod(invoices, period) == 0
    {
      CountIsZeroIff(invoices, period);
      for i := 0 to |invoices|
        invariant forall j :: 0 <= j < i ==> invoices[j].draft.period != Some(period)
      {
        if invoices[i].draft.period == Some(period) {
          return Some(i);
        }
      }
      id := None;
    }

    method VoidInvoice(id: nat) returns (result: VoidResult)
      modifies this`invoices
      ensures (Value(), result) == VoidIn(old(Value()), id)
    {
      if id >= |invoices| {
        return NotFound;
      }
      if invoices[id].status == Paid {
        return RefusedPaid;
      }
      if invoices[id].status == Void {
        return AlreadyVoid;
      }
      invoices := invoices[id := invoices[id].(status := Void)];
      result := Voided;
    }

    method CreditNoteFor(id: nat, issuedAt: int) returns (result: CreditResult)
      modifies this`invoices, this`counters
      ensures (Value(), result) == CreditNoteIn(old(Value()), id, issuedAt)
    {
      if id >= |invoices| {
        return NoInvoice;
      }
      var original := invoices[id];
      if original.status == Void {
        return NothingToCredit;
      }
      if original.draft.kind == CreditNote {
        return IsCreditNote;
      }
      var issued := Issue(Draft(original.draft.customer, CreditNote, None, Some(id), None), issuedAt);
      result := if issued.Numbered? then Credited(issued.id) else CreditFailed;
    }

    // ---------- Subscriptions ----------

    method Subscribe(customer: nat, cycle: BillingCycle, now: int) returns (id: nat)
      modifies this`subscriptions
      ensures Value() == SubscribeIn(old(Value()), customer, cycle, now, {})
      ensures id == |old(subscriptions)|
    {
      hide NextRenewal;
      var renewsAt := NextRenewal(now, cycle);
      ghost var before := Value();
      id := |subscriptions|;
      for i := 0 to |subscriptions|
        invariant |subscriptions| == id
        invariant forall j :: 0 <= j < i ==> subscriptions[j] == Superseded(before.subscriptions[j], customer, now)
        invariant forall j :: i <= j < id ==> subscriptions[j] == before.subscriptions[j]
      {
        var s := subscriptions[i];
        if s.customer == customer && s.status == Active {
          subscriptions := subscriptions[i := s.(status := Cancelled, cancelledAt := Some(now))];
        }
      }
      subscriptions := subscriptions + [Subscription(customer, now, renewsAt, cycle, Active, true, None)];
    }

    /** Cancelling again is answered with the subscription as it is. */
    method Cancel(id: nat, now: int) returns (found: bool)
      modifies this`subscriptions
      ensures found == (id < |old(subscriptions)|)
      ensures Value() == if found && old(subscriptions)[id].cancelledAt.None?
                         then CancelIn(old(Value()), id, now) else old(Value())
    {
      if id >= |subscriptions| {
        return false;
      }
      found := true;
      if subscriptions[id].cancelledAt.Some? {
        return;
      }
      subscriptions := subscriptions[id := subscriptions[id].(autoRenew := false, cancelledAt := Some(now))];
    }

    /** Invoices the change, then starts the row afresh without comparing anything. */
    method ChangePlan(id: nat, cycle: BillingCycle, now: int) returns (changed: bool)
      modifies this
      ensures changed ==> id < |old(subscriptions)|
      ensures if changed then
                var draft := Draft(old(subscriptions)[id].customer, TaxInvoice, None, None, None);
                Value() == MovePlanIn(IssueIn(old(Value()), draft, now).0, id, cycle, now)
                && |invoices| == |old(invoices)| + 1
              else Value() == old(Value())
      ensures Gapless(old(Value())) ==> changed == (id < |old(subscriptions)|)
    {
      hide NextRenewal, FinancialYearFor, Gapless;
      if id >= |subscriptions| {
        return false;
      }
      ghost var before := Value();
      var subscription := subscriptions[id];
      var draft := Draft(subscription.customer, TaxInvoice, None, None, None);
      if Gapless(before) {
        IssueKeepsGapless(before, draft, now);
      }
      var issued := Issue(draft, now);
      if !issued.Numbered? {
        return false;
      }
      subscriptions := subscriptions[id := subscription.(cycle := cycle, startsAt := now,
                                                         renewsAt := NextRenewal(now, cycle), status := Active)];
      changed := true;
    }

    method AdvanceWhere(id: nat, periodStart: int, renewsAt: int) returns (count: nat)
      modifies this`subscriptions
      ensures Value() == AdvanceIn(old(Value()), id, periodStart, renewsAt)
      ensures count == if id < |old(subscriptions)| && old(subscriptions)[id].renewsAt == periodStart then 1 else 0
    {
      count := 0;
      if id < |subscriptions| && subscriptions[id].renewsAt == periodStart {
        subscriptions := subscriptions[id := subscriptions[id].(renewsAt := renewsAt)];
        count := 1;
      }
    }

    /** Pin, invoice, then compare-and-swap the date. */
    method Renew(id: nat, expectedPeriodStart: Option<int>, now: int) returns (outcome: Outcome)
      modifies this
      ensures (Value(), outcome) == RenewAlone(old(Value()), id, expectedPeriodStart, now)
    {
      hide FinancialYearFor, NumberTaken, Counter, NextIndex, Anniversary, CountPeriod;
      if id >= |subscriptions| {
        return Failed(NoSubscription);
      }
      var subscription := subscriptions[id];
      if subscription.status == Cancelled {
        return Failed(WasCancelled);
      }
      if subscription.status == Expired {
        return Failed(HasExpired);
      }
      var periodStart := subscription.renewsAt;
      if expectedPeriodStart.Some? && periodStart != expectedPeriodStart.value {
        return Skipped;
      }
      var renewsAt, _ := RenewalAfter(subscription.startsAt, subscription.renewsAt, subscription.cycle);
      var alreadyInvoiced := false;
      var issued := Issue(RenewalDraft(subscription.customer, id, periodStart), now);
      if issued == DuplicateNumber {
        return NumberClash;
      }
      if issued == DuplicatePeriod {
        alreadyInvoiced := true;
        RefusedIsTaken(old(Value()), RenewalDraft(subscription.customer, id, periodStart), now);
        var existing := ForPeriod(Period(id, periodStart));
        CountIsZeroIff(invoices, Period(id, periodStart));
        assert existing.Some?;
      }
      var count := AdvanceWhere(id, periodStart, renewsAt);
      outcome := Renewed(alreadyInvoiced, count > 0);
    }

    // ---------- The sweep ----------

    /** Ends what was cancelled and has run out; `rows` is what the query returned. */
    method Expire(now: int, rows: seq<Due>) returns (expired: seq<nat>)
      requires RunOutListing(Value(), now, rows)
      modifies this`subscriptions
      ensures Value() == ExpireRows(old(Value()), rows)
      ensures expired == Ids(rows)
    {
      hide RunOutNow;
      expired := [];
      ghost var before := Value();
      for i := 0 to |rows|
        invariant Value() == ExpireRows(before, rows[..i])
        invariant expired == Ids(rows)[..i]
      {
        assert rows[..i + 1][..i] == rows[..i];
        var row := rows[i];
        RowIsStillRunOut(before, rows, i, now);
        if row.subscription < |subscriptions| && subscriptions[row.subscription].renewsAt == row.renewsAt
           && Live(subscriptions[row.subscription].status) {
          subscriptions := subscriptions[row.subscription := subscriptions[row.subscription].(status := Expired)];
          expired := expired + [row.subscription];
        }
      }
      assert rows[..|rows|] == rows;
    }

    /** Renews what is due, one row at a time, each pinned to the date it was listed with. */
    method RenewDue(now: int, rows: seq<Due>, clock: nat -> int)
      returns (renewed: seq<nat>, alreadyInvoiced: seq<nat>, skipped: seq<nat>, failed: seq<nat>)
      requires StoreInv(Value()) && DueListing(Value(), now, rows)
      modifies this
      ensures Value() == RenewRows(old(Value()), rows, clock)
      ensures renewed == Ids(rows) && skipped == [] && failed == []
      ensures alreadyInvoiced == Recovered(old(invoices), rows)
    {
      hide StoreInv, RenewAlone, IsDue, DueNow, RenewedRow, CountPeriod, Listed;
      renewed, alreadyInvoiced, skipped, failed := [], [], [], [];
      ghost var before := Value();
      for i := 0 to |rows|
        invariant Value() == RenewRows(before, rows[..i], clock)
        invariant renewed == Ids(rows)[..i] && skipped == [] && failed == []
        invariant alreadyInvoiced == Recovered(before.invoices, rows[..i])
      {
        assert rows[..i + 1][..i] == rows[..i];
        var row := rows[i];
        RowIsStillDue(before, rows, i, now, clock);
        RenewAloneOfDue(Value(), row, now, clock(i));
        var outcome := Renew(row.subscription, Some(row.renewsAt), clock(i));
        match outcome {
          case Skipped =>
            skipped := skipped + [row.subscription];
          case Renewed(already, advanced) =>
            if already {
              alreadyInvoiced := alreadyInvoiced + [row.subscription];
            }
            if advanced || already {
              renewed := renewed + [row.subscription];
            }
          case _ =>
            failed := failed + [row.subscription];
        }
      }
      assert rows[..|rows|] == rows;
    }

    /** Brings each listed row in line with whether its customer owes, and reports exactly those that changed. */
    method ReassessArrears(now: int, rows: seq<Assessed>)
      returns (markedPastDue: seq<nat>, clearedPastDue: seq<nat>)
      requires ArrearsListing(Value(), now, rows)
      modifies this`subscriptions
      ensures Value() == ReassessRows(old(Value()), rows)
      ensures markedPastDue == Moved(rows, true) && clearedPastDue == Moved(rows, false)
    {
      hide LiveNow, Owes, ReassessRows, IsAssessed;
      markedPastDue, clearedPastDue := [], [];
      ghost var before := Value();
      NothingReassessed(before);
      for i := 0 to |rows|
        invariant Value() == ReassessRows(before, rows[..i])
        invariant markedPastDue == Moved(rows[..i], true) && clearedPastDue == Moved(rows[..i], false)
      {
        RowIsStillAsSeen(before, rows, i, now);
        assert rows[..i + 1][..i] == rows[..i];
        var row := rows[i];
        var target := if row.owes then PastDue else Active;
        if row.seen == target {
          continue;
        }
        if !(row.subscription < |subscriptions| && subscriptions[row.subscription].status == row.seen) {
          continue;
        }
        subscriptions := subscriptions[row.subscription := subscriptions[row.subscription].(status := target)];
        if row.owes {
          markedPastDue := markedPastDue + [row.subscription];
        } else {
          clearedPastDue := clearedPastDue + [row.subscription];
        }
      }
      assert rows[..|rows|] == rows;
    }

    /** One sweep. With the queries returning what they could, everything run out is ended without being
        invoiced, every live row is past due exactly when its customer owes, and every row listed as due is
        renewed, none skipped and none failed. */
    method Sweep(now: int, q: Inputs) returns (summary: SweepSummary)
      requires StoreInv(Value()) && CouldReturn(Value(), now, q)
      modifies this
      ensures Value() == SweepOnce(old(Value()), q) && StoreInv(Value())
      ensures summary.expired == Ids(q.expired) && summary.renewed == Ids(q.due)
      ensures summary.skipped == [] && summary.failed == []
      ensures summary.alreadyInvoiced == Recovered(old(invoices), q.due)
      ensures |subscriptions| == |old(subscriptions)|
      ensures forall id: nat :: id in summary.markedPastDue <==>
                id < |subscriptions| && old(subscriptions)[id].status != PastDue && subscriptions[id].status == PastDue
      ensures forall id: nat :: id in summary.clearedPastDue <==>
                id < |subscriptions| && old(subscriptions)[id].status != Active && subscriptions[id].status == Active
      ensures |RunOutNow(old(Value()), now)| <= BATCH ==>
                forall id :: id in RunOutNow(old(Value()), now) ==>
                               id < |subscriptions| && subscriptions[id].status == Expired
      ensures |LiveNow(RenewRows(ExpireRows(old(Value()), q.expired), q.due, q.clock))| <= BATCH ==>
                forall id :: 0 <= id < |subscriptions| && Live(subscriptions[id].status) ==>
                               (subscriptions[id].status == PastDue <==> Owes(Value(), subscriptions[id].customer, now))
    {
      hide StoreInv, ExpireRows, RenewRows, ReassessRows, IsDue, IsRunOut, IsAssessed, Owes, CountPeriod, Recovered,
        Moved;
      ghost var before := Value();
      SweepKeepsInv(before, now, q);
      ExpireRowsKeep(before, q.expired, now);
      ExpireRowsEffect(before, q.expired, now);
      SweepMoves(before, now, q, true);
      SweepMoves(before, now, q, false);
      var expired := Expire(now, q.expired);
      var renewed, alreadyInvoiced, skipped, failed := RenewDue(now, q.due, q.clock);
      var markedPastDue, clearedPastDue := ReassessArrears(now, q.assessed);
      summary := SweepSummary(expired, renewed, alreadyInvoiced, skipped, failed, markedPastDue, clearedPastDue);
      forall id | id in RunOutNow(before, now) && |RunOutNow(before, now)| <= BATCH
        ensures id < |subscriptions| && subscriptions[id].status == Expired
      {
        RunOutMeans(before, id, now);
        SweepExpires(before, now, q, id);
      }
      forall id | 0 <= id < |subscriptions| && Live(subscriptions[id].status)
                  && |LiveNow(RenewRows(ExpireRows(before, q.expired), q.due, q.clock))| <= BATCH
        ensures subscriptions[id].status == PastDue <==> Owes(Value(), subscriptions[id].customer, now)
      {
        SweepSettlesArrears(before, now, q, id);
        OwesMeans(Value(), subscriptions[id].customer, now);
      }
    }
  }

  /** A listed row is still what it was listed as when its turn comes. */
  lemma RowIsStillRunOut(before: Store, rows: seq<Due>, i: nat, now: int)
    requires RunOutListing(before, now, rows) && i < |rows|
    ensures IsRunOut(ExpireRows(before, rows[..i]), rows[i], now)
    ensures rows[i].subscription == Ids(rows)[i]
  {
    hide ExpireRows, RunOutNow;
    assert IsRunOut(before, rows[i], now);
    PrefixIds(rows, i);
    ExpireRowsEffect(before, rows[..i], now);
  }

  lemma RowIsStillDue(before: Store, rows: seq<Due>, i: nat, now: int, clock: nat -> int)
    requires StoreInv(before) && DueListing(before, now, rows) && i < |rows|
    ensures StoreInv(RenewRows(before, rows[..i], clock))
    ensures IsDue(RenewRows(before, rows[..i], clock), rows[i], now)
    ensures rows[i].subscription == Ids(rows)[i]
    ensures var period := Period(rows[i].subscription, rows[i].renewsAt);
            CountPeriod(RenewRows(before, rows[..i], clock).invoices, period) == CountPeriod(before.invoices, period)
  {
    hide StoreInv, RenewRows, CountPeriod, RenewedRow, DueNow;
    assert IsDue(before, rows[i], now);
    PrefixIds(rows, i);
    RenewRowsEffect(before, rows[..i], now, clock);
    forall j | 0 <= j < i
      ensures rows[..i][j] != rows[i]
    {
      assert Ids(rows[..i])[j] == rows[j].subscription;
    }
  }

  lemma NothingReassessed(st: Store)
    ensures ReassessRows(st, []) == st
  {
  }

  lemma RowIsStillAsSeen(before: Store, rows: seq<Assessed>, i: nat, now: int)
    requires ArrearsListing(before, now, rows) && i < |rows|
    ensures var st, row := ReassessRows(before, rows[..i]), rows[i];
            row.subscription < |st.subscriptions| && st.subscriptions[row.subscription].status == row.seen
            && ReassessRows(before, rows[..i + 1]) == ReassessIn(st, row.subscription, row.seen, row.owes)
  {
    hide LiveNow, Owes;
    assert IsAssessed(before, rows[i], now);
    assert AssessedIds(rows[..i]) == AssessedIds(rows)[..i];
    assert rows[..i + 1][..i] == rows[..i];
    ReassessRowsEffect(before, rows[..i], now);
  }

  lemma PrefixIds(rows: seq<Due>, i: nat)
    requires Distinct(Ids(rows)) && i < |rows|
    ensures Distinct(Ids(rows[..i])) && rows[i].subscription !in Ids(rows[..i])
    ensures forall r :: r in rows[..i] ==> r in rows
  {
    assert Ids(rows[..i]) == Ids(rows)[..i];
  }
}
