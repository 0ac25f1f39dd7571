/**
 The check that a financial year's numbering has no gaps
 (backend/src/billing/invoice.service.ts:347-379), on any table, not only on those billing writes.
 */
module InvoiceAudit {
  import opened Options
  import opened Billing
  import InvoiceNumber
  import opened Sequences

  datatype Row = Row(serial: Option<int>, invoiceNumber: string)

  /** The serials of the rows that have one. */
  function Serials(rows: seq<Row>): seq<int> {
    if rows == [] then []
    else
      var last := rows[|rows| - 1];
      Serials(rows[..|rows| - 1]) + if last.serial.Some? then [last.serial.value] else []
  }

  /** The numbers of the rows whose serial an earlier row already has. */
  function Repeats(rows: seq<Row>): seq<string> {
    if rows == [] then []
    else
      var n := |rows| - 1;
      Repeats(rows[..n])
      + if rows[n].serial.Some? && rows[n].serial.value in Serials(rows[..n]) then [rows[n].invoiceNumber] else []
  }

  predicate Increasing(s: seq<int>) {
    forall i, j :: 0 <= i < j < |s| ==> s[i] < s[j]
  }

  /** Each of 1, 2, ... up to `n` is listed exactly once and nothing else is. */
  ghost predicate CountsUp(s: seq<int>, n: int) {
    |s| == n && Distinct(s) && forall x :: x in s <==> 1 <= x <= n
  }

  lemma {:induction false} RepeatsCount(rows: seq<Row>)
    ensures |Repeats(rows)| + |ToSet(Serials(rows))| == |Serials(rows)|
    ensures Repeats(rows) == [] <==> Distinct(Serials(rows))
  {
    if rows != [] {
      var n := |rows| - 1;
      RepeatsCount(rows[..n]);
      var before := Serials(rows[..n]);
      if rows[n].serial.Some? {
        var x := rows[n].serial.value;
        assert ToSet(before + [x]) == ToSet(before) + {x};
        OnceAppended(before, x);
        assert x in ToSet(before) <==> x in before;
        if x in before {
          assert ToSet(before + [x]) == ToSet(before);
        }
      } else {
        assert Serials(rows) == before;
      }
    }
  }

  lemma OnceAppended(s: seq<int>, x: int)
    ensures Distinct(s + [x]) <==> Distinct(s) && x !in s
  {
    var t := s + [x];
    if Distinct(t) {
      forall i | 0 <= i < |s|
        ensures s[i] != x
      {
        assert t[i] != t[|s|];
      }
      forall i, j | 0 <= i < j < |s|
        ensures s[i] != s[j]
      {
        assert t[i] != t[j];
      }
    }
  }

  function Interval(n: int): (s: set<int>)
    ensures forall x :: x in s <==> 1 <= x <= n
  {
    if n <= 0 then {} else Interval(n - 1) + {n}
  }

  lemma {:induction false} IntervalSize(n: int)
    requires n >= 0
    ensures |Interval(n)| == n
  {
    if n > 0 {
      IntervalSize(n - 1);
    }
  }

  lemma SubsetOfSameSize(a: set<int>, b: set<int>)
    requires a <= b && |a| == |b|
    ensures a == b
  {
    assert b == a + (b - a);
  }

  /** A clean audit, with as many documents as the highest number, is exactly a numbering without gaps. */
  lemma CleanMeansGapless(rows: seq<Row>, highest: int)
    requires highest == 0 || highest in Serials(rows)
    requires forall x :: x in Serials(rows) ==> x <= highest
    ensures ((forall x :: 1 <= x <= highest ==> x in Serials(rows)) && Repeats(rows) == []
            && |Serials(rows)| == highest)
            <==> CountsUp(Serials(rows), highest)
  {
    RepeatsCount(rows);
    var s := Serials(rows);
    if (forall x :: 1 <= x <= highest ==> x in s) && Repeats(rows) == [] && |s| == highest {
      IntervalSize(highest);
      assert Interval(highest) <= ToSet(s);
      SubsetOfSameSize(Interval(highest), ToSet(s));
      assert forall x :: x in s <==> x in ToSet(s);
    }
  }

  lemma NoRows()
    ensures Serials([]) == [] && Repeats([]) == []
  {
  }

  lemma OneMoreRow(rows: seq<Row>, i: nat)
    requires i < |rows|
    ensures Serials(rows[..i + 1])
            == if rows[i].serial.Some? then Serials(rows[..i]) + [rows[i].serial.value] else Serials(rows[..i])
    ensures Repeats(rows[..i + 1])
            == if rows[i].serial.Some? && rows[i].serial.value in Serials(rows[..i])
               then Repeats(rows[..i]) + [rows[i].invoiceNumber] else Repeats(rows[..i])
  {
    assert rows[..i + 1][..i] == rows[..i];
  }

  /** The audit of a table: its `missing` are exactly the absent numbers up to the highest, ascending, and its
      `duplicates` the rows that repeat a serial. */
  method AuditSequence(rows: seq<Row>) returns (issued: nat, expected: int, missing: seq<int>, duplicates: seq<string>)
    ensures issued == |Serials(rows)|
    ensures if Serials(rows) == [] then expected == 0
            else expected in Serials(rows) && forall x :: x in Serials(rows) ==> x <= expected
    ensures Increasing(missing) && forall x :: x in missing <==> 1 <= x <= expected && x !in Serials(rows)
    ensures duplicates == Repeats(rows) && |duplicates| == issued - |ToSet(Serials(rows))|
    ensures missing == [] && duplicates == [] && issued == expected <==> CountsUp(Serials(rows), expected)
  {
    hide Serials, Repeats, Distinct;
    NoRows();
    var seen: set<int> := {};
    duplicates := [];
    issued := 0;
    expected := 0;
    for i := 0 to |rows|
      invariant seen == ToSet(Serials(rows[..i]))
      invariant duplicates == Repeats(rows[..i])
      invariant issued == |Serials(rows[..i])|
      invariant if issued == 0 then expected == 0
                else expected in seen && forall x :: x in seen ==> x <= expected
    {
      OneMoreRow(rows, i);
      if rows[i].serial.Some? {
        var serial := rows[i].serial.value;
        assert ToSet(Serials(rows[..i]) + [serial]) == seen + {serial};
        if serial in seen {
          duplicates := duplicates + [rows[i].invoiceNumber];
        }
        seen := seen + {serial};
        expected := if issued == 0 || serial > expected then serial else expected;
        issued := issued + 1;
      }
    }
    assert rows[..|rows|] == rows;
    missing := [];
    var n := 1;
    while n <= expected
      invariant 1 <= n && (n <= expected + 1 || n == 1)
      invariant Increasing(missing) && forall x :: x in missing <==> 1 <= x < n && x !in seen
    {
      assert forall i :: 0 <= i < |missing| ==> missing[i] in missing;
      if n !in seen {
        missing := missing + [n];
      }
      n := n + 1;
    }
    RepeatsCount(rows);
    assert forall x :: x in Serials(rows) <==> x in seen;
    CleanMeansGapless(rows, expected);
    forall x | 1 <= x <= expected
      ensures x in Serials(rows) || x in missing
    {
      assert x < n;
    }
    if missing != [] {
      assert missing[0] in missing;
    }
  }

  // ---------- The tables billing writes ----------

  function RowOf(invoice: Invoice): Row {
    Row(Some(invoice.serial), InvoiceNumber.FormatInvoiceNumber(invoice.financialYear, invoice.serial))
  }

  /** What the audit reads of one financial year. */
  function RowsOf(invoices: seq<Invoice>, year: int): seq<Row> {
    if invoices == [] then []
    else
      var last := invoices[|invoices| - 1];
      RowsOf(invoices[..|invoices| - 1], year) + if last.financialYear == year then [RowOf(last)] else []
  }

  lemma {:induction false} SerialsOfRows(invoices: seq<Invoice>, year: int)
    ensures Serials(RowsOf(invoices, year)) == SerialsOf(invoices, year)
  {
    if invoices != [] {
      var n := |invoices| - 1;
      SerialsOfRows(invoices[..n], year);
      if invoices[n].financialYear != year {
        assert RowsOf(invoices, year) == RowsOf(invoices[..n], year);
      } else {
        var rows := RowsOf(invoices[..n], year);
        assert (rows + [RowOf(invoices[n])])[..|rows|] == rows;
      }
    }
  }

  /** In every store billing reaches, the audit of a year finds nothing missing and nothing repeated, and as
      many documents as the counter says. */
  method AuditYear(st: Store, year: int)
      returns (issued: nat, expected: int, missing: seq<int>, duplicates: seq<string>)
    ensures Gapless(st) ==> missing == [] && duplicates == [] && issued == expected == Counter(st, year)
  {
    issued, expected, missing, duplicates := AuditSequence(RowsOf(st.invoices, year));
    if Gapless(st) {
      var n := Counter(st, year);
      SerialsOfRows(st.invoices, year);
      assert Serials(RowsOf(st.invoices, year)) == UpTo(n);
      if n > 0 {
        assert UpTo(n)[n - 1] == n;
        assert expected in UpTo(n) && n in Serials(RowsOf(st.invoices, year));
      }
      assert expected == n;
      forall x | 1 <= x <= n
        ensures x in UpTo(n)
      {
        assert UpTo(n)[x - 1] == x;
      }
      assert CountsUp(UpTo(n), n);
    }
  }

  /** Where numbers are unique no two documents carry the same number in print. */
  lemma PrintedNumbersAreDistinct(invoices: seq<Invoice>, i: nat, j: nat)
    requires i < j < |invoices| && NumbersAreUnique(invoices)
    ensures RowOf(invoices[i]).invoiceNumber != RowOf(invoices[j]).invoiceNumber
  {
    InvoiceNumber.NumbersAreDistinct(invoices[i].financialYear, invoices[i].serial,
                                     invoices[j].financialYear, invoices[j].serial);
  }
}
