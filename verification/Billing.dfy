/**
 The tables billing writes, and the transaction that issues a document
 (backend/src/billing/invoice.service.ts, backend/src/plans/subscriptions.service.ts).

 Rows are never deleted, so a table is a sequence and a row's id is its index. A financial year stands
 for its label by the year it starts in.
 */
module Billing {
  import opened Numbers
  import opened Options
  import opened Calendar

  datatype Status = Active | PastDue | Cancelled | Expired

  predicate Live(s: Status) {
    s == Active || s == PastDue
  }

  datatype Subscription = Subscription(
    customer: nat, startsAt: int, renewsAt: int, cycle: BillingCycle,
    status: Status, autoRenew: bool, cancelledAt: Option<int>)

  datatype InvoiceKind = TaxInvoice | CreditNote

  datatype InvoiceStatus = Issued | Paid | Void

  /** The key of the unique index: one subscription and the date the period starts. */
  datatype Period = Period(subscription: nat, start: int)

  /** What the caller of `issue` decides about a document. */
  datatype Draft = Draft(customer: nat, kind: InvoiceKind, period: Option<Period>, against: Option<nat>,
      dueAt: Option<int>)

  datatype Invoice = Invoice(draft: Draft, financialYear: int, serial: nat, status: InvoiceStatus)

  datatype Store = Store(subscriptions: seq<Subscription>, invoices: seq<Invoice>, counters: map<int, nat>)

  // ---------- Counting rows ----------

  /** How many invoice rows carry a period. */
  function CountPeriod(invoices: seq<Invoice>, p: Period): nat {
    if invoices == [] then 0
    else CountPeriod(invoices[..|invoices| - 1], p) + if invoices[|invoices| - 1].draft.period == Some(p) then 1 else 0
  }

  /** The serials of one financial year, in the order they were issued. */
  function SerialsOf(invoices: seq<Invoice>, year: int): seq<nat> {
    if invoices == [] then []
    else
      var last := invoices[|invoices| - 1];
      SerialsOf(invoices[..|invoices| - 1], year) + if last.financialYear == year then [last.serial] else []
  }

  function UpTo(n: nat): (s: seq<nat>)
    ensures |s| == n && forall i :: 0 <= i < n ==> s[i] == i + 1
  {
    seq(n, i => i + 1)
  }

  function Counter(st: Store, year: int): nat {
    if year in st.counters then st.counters[year] else 0
  }

  /** Every financial year's serials are 1, 2, ... up to its counter, each once and in that order. */
  ghost predicate Gapless(st: Store) {
    forall year :: SerialsOf(st.invoices, year) == UpTo(Counter(st, year))
  }

  lemma CountOfAppended(invoices: seq<Invoice>, row: Invoice, p: Period)
    ensures CountPeriod(invoices + [row], p)
            == CountPeriod(invoices, p) + if row.draft.period == Some(p) then 1 else 0
  {
    assert (invoices + [row])[..|invoices|] == invoices;
  }

  lemma SerialsOfAppended(invoices: seq<Invoice>, row: Invoice, year: int)
    ensures SerialsOf(invoices + [row], year)
            == SerialsOf(invoices, year) + if row.financialYear == year then [row.serial] else []
  {
    assert (invoices + [row])[..|invoices|] == invoices;
  }

  lemma {:induction false} CountIsZeroIff(invoices: seq<Invoice>, p: Period)
    ensures CountPeriod(invoices, p) == 0 <==> forall i :: 0 <= i < |invoices| ==> invoices[i].draft.period != Some(p)
  {
    if invoices != [] {
      var n := |invoices| - 1;
      CountIsZeroIff(invoices[..n], p);
      assert forall i :: 0 <= i < n ==> invoices[..n][i] == invoices[i];
    }
  }

  lemma {:induction false} SerialIsListed(invoices: seq<Invoice>, year: int, i: int)
    requires 0 <= i < |invoices| && invoices[i].financialYear == year
    ensures invoices[i].serial in SerialsOf(invoices, year)
  {
    var n := |invoices| - 1;
    if i < n {
      assert invoices[..n][i] == invoices[i];
      SerialIsListed(invoices[..n], year, i);
    }
  }

  /** Changing a row's status keeps what periods and serials say. */
  lemma {:induction false} StatusDoesNotCount(before: seq<Invoice>, after: seq<Invoice>, p: Period, year: int)
    requires |before| == |after|
    requires forall i :: 0 <= i < |before| ==> after[i] == before[i].(status := after[i].status)
    ensures CountPeriod(after, p) == CountPeriod(before, p)
    ensures SerialsOf(after, year) == SerialsOf(before, year)
  {
    if before != [] {
      var n := |before| - 1;
      StatusDoesNotCount(before[..n], after[..n], p, year);
    }
  }

  // ---------- Issuing ----------

  datatype IssueResult = Numbered(id: nat) | DuplicatePeriod | DuplicateNumber

  predicate PeriodTaken(invoices: seq<Invoice>, period: Option<Period>) {
    period.Some? && exists i :: 0 <= i < |invoices| && invoices[i].draft.period == period
  }

  predicate NumberTaken(invoices: seq<Invoice>, year: int, serial: nat) {
    exists i :: 0 <= i < |invoices| && invoices[i].financialYear == year && invoices[i].serial == serial
  }

  /** The transaction: allocate the next serial and insert the row, or change nothing at all. */
  function IssueIn(st: Store, draft: Draft, issuedAt: int): (Store, IssueResult) {
    var year := FinancialYearFor(issuedAt);
    var serial := Counter(st, year) + 1;
    if PeriodTaken(st.invoices, draft.period) then (st, DuplicatePeriod)
    else if NumberTaken(st.invoices, year, serial) then (st, DuplicateNumber)
    else (st.(invoices := st.invoices + [Invoice(draft, year, serial, Issued)],
              counters := st.counters[year := serial]),
          Numbered(|st.invoices|))
  }

  lemma NextNumberIsFree(st: Store, year: int)
    requires Gapless(st)
    ensures !NumberTaken(st.invoices, year, Counter(st, year) + 1)
  {
    forall i | 0 <= i < |st.invoices| && st.invoices[i].financialYear == year
      ensures st.invoices[i].serial != Counter(st, year) + 1
    {
      SerialIsListed(st.invoices, year, i);
      assert st.invoices[i].serial in UpTo(Counter(st, year));
    }
  }

  /** Issuing keeps the numbering gapless, a refusal included, and while it is gapless no number is ever
      taken twice. */
  lemma IssueKeepsGapless(st: Store, draft: Draft, issuedAt: int)
    requires Gapless(st)
    ensures Gapless(IssueIn(st, draft, issuedAt).0)
    ensures IssueIn(st, draft, issuedAt).1 != DuplicateNumber
  {
    hide FinancialYearFor;
    var year := FinancialYearFor(issuedAt);
    var row := Invoice(draft, year, Counter(st, year) + 1, Issued);
    NextNumberIsFree(st, year);
    var (after, result) := IssueIn(st, draft, issuedAt);
    if result.Numbered? {
      forall y
        ensures SerialsOf(after.invoices, y) == UpTo(Counter(after, y))
      {
        SerialsOfAppended(st.invoices, row, y);
      }
    }
  }

  /** What is issued is the draft asked for, unpaid, as one more row of the year it is issued in; otherwise nothing
      changes at all. */
  lemma IssuedDocument(st: Store, draft: Draft, issuedAt: int)
    ensures var (after, result) := IssueIn(st, draft, issuedAt);
            if result.Numbered? then
              result.id == |st.invoices| && |after.invoices| == |st.invoices| + 1
              && after.invoices[..result.id] == st.invoices && after.subscriptions == st.subscriptions
              && after.invoices[result.id].draft == draft && after.invoices[result.id].status == Issued
              && FirstOfApril(after.invoices[result.id].financialYear) <= issuedAt
                 < FirstOfApril(after.invoices[result.id].financialYear + 1)
            else after == st
  {
    hide FinancialYearFor, FirstOfApril, NumberTaken;
    FinancialYearBounds(issuedAt, FinancialYearFor(issuedAt));
  }

  ghost predicate NumbersAreUnique(invoices: seq<Invoice>) {
    forall i, j :: 0 <= i < j < |invoices| && invoices[i].financialYear == invoices[j].financialYear ==>
                     invoices[i].serial != invoices[j].serial
  }

  /** No number is given twice, even where rows have been removed or counters reset by hand. */
  lemma IssueKeepsNumbersUnique(st: Store, draft: Draft, issuedAt: int)
    requires NumbersAreUnique(st.invoices)
    ensures NumbersAreUnique(IssueIn(st, draft, issuedAt).0.invoices)
  {
    hide FinancialYearFor;
    var after := IssueIn(st, draft, issuedAt).0.invoices;
    forall i, j | 0 <= i < j < |after| && after[i].financialYear == after[j].financialYear
      ensures after[i].serial != after[j].serial
    {
      assert after[i] == st.invoices[i];
    }
  }

  /** What issuing does to the count of a period: a free period gets its one row, nothing else changes. */
  lemma IssueCounts(st: Store, draft: Draft, issuedAt: int, p: Period)
    requires IssueIn(st, draft, issuedAt).1 != DuplicateNumber
    ensures CountPeriod(IssueIn(st, draft, issuedAt).0.invoices, p)
            == if draft.period == Some(p) then Max(1, CountPeriod(st.invoices, p)) else CountPeriod(st.invoices, p)
    ensures IssueIn(st, draft, issuedAt).1 == DuplicatePeriod <==>
              draft.period.Some? && CountPeriod(st.invoices, draft.period.value) > 0
  {
    hide FinancialYearFor;
    var year := FinancialYearFor(issuedAt);
    CountOfAppended(st.invoices, Invoice(draft, year, Counter(st, year) + 1, Issued), p);
    CountIsZeroIff(st.invoices, p);
    if draft.period.Some? {
      CountIsZeroIff(st.invoices, draft.period.value);
    }
  }

  // ---------- The other writes of the invoice table ----------

  datatype VoidResult = Voided | RefusedPaid | AlreadyVoid | NotFound

  function VoidIn(st: Store, id: nat): (Store, VoidResult) {
    if id >= |st.invoices| then (st, NotFound)
    else if st.invoices[id].status == Paid then (st, RefusedPaid)
    else if st.invoices[id].status == Void then (st, AlreadyVoid)
    else (SetInvoiceStatus(st, id, Void), Voided)
  }

  function SetInvoiceStatus(st: Store, id: nat, status: InvoiceStatus): Store
    requires id < |st.invoices|
  {
    st.(invoices := st.invoices[id := st.invoices[id].(status := status)])
  }

  datatype CreditResult = Credited(id: nat) | NothingToCredit | IsCreditNote | NoInvoice | CreditFailed

  function CreditNoteIn(st: Store, id: nat, issuedAt: int): (Store, CreditResult) {
    if id >= |st.invoices| then (st, NoInvoice)
    else
      var original := st.invoices[id];
      if original.status == Void then (st, NothingToCredit)
      else if original.draft.kind == CreditNote then (st, IsCreditNote)
      else
        var (after, result) := IssueIn(st, Draft(original.draft.customer, CreditNote, None, Some(id), None), issuedAt);
        (after, if result.Numbered? then Credited(result.id) else CreditFailed)
  }

  /** Voiding keeps the row: its number and its period stay taken, and nothing else changes. It is refused
      exactly for a paid invoice. */
  lemma VoidKeepsTheRow(st: Store, id: nat, year: int, p: Period)
    requires id < |st.invoices|
    ensures var (after, result) := VoidIn(st, id);
            (result == RefusedPaid <==> st.invoices[id].status == Paid)
            && (result == Voided <==> st.invoices[id].status == Issued)
            && (result == AlreadyVoid <==> st.invoices[id].status == Void)
            && after.invoices[id].draft == st.invoices[id].draft
            && (result != RefusedPaid <==> after.invoices[id].status == Void)
            && SerialsOf(after.invoices, year) == SerialsOf(st.invoices, year)
            && CountPeriod(after.invoices, p) == CountPeriod(st.invoices, p)
            && after.subscriptions == st.subscriptions && after.counters == st.counters
            && forall i :: 0 <= i < |st.invoices| && i != id ==> after.invoices[i] == st.invoices[i]
  {
    StatusDoesNotCount(st.invoices, VoidIn(st, id).0.invoices, p, year);
  }

  /** So a period whose invoice was voided is not billed again. */
  lemma VoidedPeriodStaysTaken(st: Store, id: nat, draft: Draft, issuedAt: int)
    requires id < |st.invoices| && draft.period.Some? && st.invoices[id].draft.period == draft.period
    ensures IssueIn(VoidIn(st, id).0, draft, issuedAt) == (VoidIn(st, id).0, DuplicatePeriod)
  {
    hide FinancialYearFor;
    assert VoidIn(st, id).0.invoices[id].draft.period == draft.period;
  }

  /** A credit note is issued exactly for a document that is neither void nor a credit note itself. It is one
      more document of its year with the next number, a credit note to the same customer that points at the
      original; it leaves every earlier row as it was, takes no period and is never due. */
  lemma CreditNoteIsOneMore(st: Store, id: nat, issuedAt: int, p: Period)
    requires Gapless(st)
    ensures var (after, result) := CreditNoteIn(st, id, issuedAt);
            (result.Credited? <==>
               id < |st.invoices| && st.invoices[id].status != Void && st.invoices[id].draft.kind != CreditNote)
            && Gapless(after) && after.subscriptions == st.subscriptions
            && CountPeriod(after.invoices, p) == CountPeriod(st.invoices, p)
            && (!result.Credited? ==> after == st)
            && (result.Credited? ==>
                  result.id == |st.invoices| && |after.invoices| == |st.invoices| + 1
                  && after.invoices[..result.id] == st.invoices
                  && after.invoices[result.id].draft.kind == CreditNote
                  && after.invoices[result.id].draft.against == Some(id)
                  && after.invoices[result.id].draft.customer == st.invoices[id].draft.customer
                  && after.invoices[result.id].draft.period.None? && after.invoices[result.id].draft.dueAt.None?
                  && Counter(after, FinancialYearFor(issuedAt)) == Counter(st, FinancialYearFor(issuedAt)) + 1
                  && after.invoices[result.id].serial == Counter(after, FinancialYearFor(issuedAt)))
  {
    hide FinancialYearFor, Gapless, CountPeriod;
    if id < |st.invoices| {
      var draft := Draft(st.invoices[id].draft.customer, CreditNote, None, Some(id), None);
      IssueKeepsGapless(st, draft, issuedAt);
      IssueCounts(st, draft, issuedAt, p);
    }
  }

  /** A credit note cannot itself be credited. */
  lemma CreditNoteIsNotCredited(st: Store, id: nat, issuedAt: int, later: int)
    requires CreditNoteIn(st, id, issuedAt).1.Credited?
    ensures var (after, result) := CreditNoteIn(st, id, issuedAt);
            CreditNoteIn(after, result.id, later) == (after, IsCreditNote)
  {
    hide FinancialYearFor, NumberTaken;
  }

  /** There is nothing to credit exactly where there is no document, or a void one. */
  lemma CreditRefusals(st: Store, id: nat, issuedAt: int)
    ensures CreditNoteIn(st, id, issuedAt).1 == NoInvoice <==> id >= |st.invoices|
    ensures CreditNoteIn(st, id, issuedAt).1 == NothingToCredit
            <==> id < |st.invoices| && st.invoices[id].status == Void
  {
    hide FinancialYearFor, NumberTaken;
  }
}
