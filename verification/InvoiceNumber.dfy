/**
 Invoice numbers (backend/src/billing/invoice.service.ts:60-69). The unique index is on the formatted
 number; these lemmas say it is an index on the financial year and the serial.
 */
module InvoiceNumber {
  import opened Decimals

  function PadStart(s: string, width: nat): string
    decreases if |s| < width then width - |s| else 0
  {
    if |s| >= width then s else PadStart("0" + s, width)
  }

  function FinancialYearLabel(startYear: int): string {
    Decimal(startYear) + "-" + PadStart(Decimal((startYear + 1) % 100), 2)
  }

  function FormatInvoiceNumber(startYear: int, serial: nat): string {
    "WEB/" + FinancialYearLabel(startYear) + "/" + PadStart(Decimal(serial), 5)
  }

  // ---------- Reading a number back ----------

  lemma {:induction false} LeadingZeroIsFree(s: string)
    ensures NumberOf("0" + s) == NumberOf(s)
  {
    var t := "0" + s;
    if s != [] {
      LeadingZeroIsFree(s[..|s| - 1]);
      assert t[..|t| - 1] == "0" + s[..|s| - 1];
    } else {
      assert t[..0] == [];
    }
  }

  lemma {:induction false} PaddedReadsBack(s: string, width: nat)
    requires s != [] && forall c :: c in s ==> c in DIGITS
    ensures NumberOf(PadStart(s, width)) == NumberOf(s)
    ensures forall c :: c in PadStart(s, width) ==> c in DIGITS
    ensures |PadStart(s, width)| == if |s| >= width then |s| else width
    decreases if |s| < width then width - |s| else 0
  {
    if |s| < width {
      LeadingZeroIsFree(s);
      PaddedReadsBack("0" + s, width);
    }
  }

  function FirstIndex(s: string, c: char): nat {
    if s == [] || s[0] == c then 0 else 1 + FirstIndex(s[1..], c)
  }

  lemma {:induction false} FirstIndexOfCut(a: string, b: string, c: char)
    requires c !in a
    ensures FirstIndex(a + [c] + b, c) == |a|
  {
    var s := a + [c] + b;
    if a != [] {
      FirstIndexOfCut(a[1..], b, c);
      assert s[1..] == a[1..] + [c] + b && s[0] == a[0];
    }
  }

  /** Two strings cut at their first `c` are equal piece by piece. */
  lemma SameCut(a: string, b: string, x: string, y: string, c: char)
    requires c !in a && c !in x && a + [c] + b == x + [c] + y
    ensures a == x && b == y
  {
    FirstIndexOfCut(a, b, c);
    FirstIndexOfCut(x, y, c);
    var s := a + [c] + b;
    assert a == s[..|a|] && x == s[..|x|];
    assert b == s[|a| + 1..] && y == s[|x| + 1..];
  }

  lemma DecimalIsInjective(m: int, n: int)
    requires Decimal(m) == Decimal(n)
    ensures m == n
  {
    hide Digits, NumberOf;
    if m < 0 {
      assert Decimal(m)[0] == '-' && Decimal(m)[1..] == Digits(-m);
    }
    if n < 0 {
      assert Decimal(n)[0] == '-' && Decimal(n)[1..] == Digits(-n);
    }
    assert Digits(if m < 0 then -m else m)[0] in DIGITS && Digits(if n < 0 then -n else n)[0] in DIGITS;
    DigitsReadBack(if m < 0 then -m else m);
    DigitsReadBack(if n < 0 then -n else n);
  }

  lemma LabelIsInjective(y1: int, y2: int)
    requires FinancialYearLabel(y1) == FinancialYearLabel(y2)
    ensures y1 == y2
  {
    var a, x := Decimal(y1), Decimal(y2);
    var b, y := PadStart(Decimal((y1 + 1) % 100), 2), PadStart(Decimal((y2 + 1) % 100), 2);
    TwoDigits((y1 + 1) % 100);
    TwoDigits((y2 + 1) % 100);
    var s := FinancialYearLabel(y1);
    assert |a| == |s| - 3 && |x| == |s| - 3;
    assert a == s[..|s| - 3] && x == s[..|s| - 3];
    DecimalIsInjective(y1, y2);
  }

  lemma TwoDigits(n: int)
    requires 0 <= n < 100
    ensures |PadStart(Decimal(n), 2)| == 2
  {
    PaddedReadsBack(Digits(n), 2);
    if n >= 10 {
      assert Digits(n) == Digits(n / 10) + [DIGITS[n % 10]];
      assert Digits(n / 10) == [DIGITS[n / 10]];
    }
  }

  lemma LabelHasNoSlash(y: int)
    ensures '/' !in FinancialYearLabel(y)
  {
    PaddedReadsBack(Decimal((y + 1) % 100), 2);
  }

  /** Documents of different years, or with different serials, never share a number. */
  lemma NumbersAreDistinct(y1: int, s1: nat, y2: int, s2: nat)
    ensures FormatInvoiceNumber(y1, s1) == FormatInvoiceNumber(y2, s2) <==> y1 == y2 && s1 == s2
  {
    hide FormatInvoiceNumber, FinancialYearLabel, PadStart, Decimal, NumberOf;
    if FormatInvoiceNumber(y1, s1) == FormatInvoiceNumber(y2, s2) {
      SamePieces(y1, s1, y2, s2);
      LabelIsInjective(y1, y2);
      SerialReadsBack(s1);
      SerialReadsBack(s2);
    }
  }

  lemma SamePieces(y1: int, s1: nat, y2: int, s2: nat)
    requires FormatInvoiceNumber(y1, s1) == FormatInvoiceNumber(y2, s2)
    ensures FinancialYearLabel(y1) == FinancialYearLabel(y2) && PadStart(Decimal(s1), 5) == PadStart(Decimal(s2), 5)
  {
    hide FinancialYearLabel, PadStart, Decimal;
    LabelHasNoSlash(y1);
    LabelHasNoSlash(y2);
    var a, b := FinancialYearLabel(y1), PadStart(Decimal(s1), 5);
    var x, y := FinancialYearLabel(y2), PadStart(Decimal(s2), 5);
    assert FormatInvoiceNumber(y1, s1)[4..] == a + ['/'] + b;
    assert FormatInvoiceNumber(y2, s2)[4..] == x + ['/'] + y;
    SameCut(a, b, x, y, '/');
  }

  lemma SerialReadsBack(serial: nat)
    ensures NumberOf(PadStart(Decimal(serial), 5)) == serial
  {
    hide PadStart, Digits;
    PaddedReadsBack(Digits(serial), 5);
    DigitsReadBack(serial);
  }

  /** How a number reads: the financial year by the year it starts in and the last two digits of the next, and the
      serial in five digits or more. */
  lemma NumberReads(startYear: int, serial: nat)
    requires startYear >= 0
    ensures var text, year, n := FormatInvoiceNumber(startYear, serial), Digits(startYear), |Digits(startYear)|;
            |text| >= 4 + n + 1 + 2 + 1 + 5
            && text[..4] == "WEB/" && text[4..4 + n] == year && text[4 + n] == '-'
            && NumberOf(text[5 + n..7 + n]) == (startYear + 1) % 100 && text[7 + n] == '/'
            && NumberOf(text[8 + n..]) == serial
            && forall c :: c in text[5 + n..7 + n] + text[8 + n..] ==> c in DIGITS
  {
    hide PadStart, Digits, NumberOf;
    var year, next, padded := Digits(startYear), (startYear + 1) % 100, PadStart(Decimal(serial), 5);
    var two := PadStart(Decimal(next), 2);
    TwoDigits(next);
    PaddedReadsBack(Digits(next), 2);
    DigitsReadBack(next);
    PaddedReadsBack(Digits(serial), 5);
    DigitsReadBack(serial);
    var web, dash, slash := "WEB/", "-", "/";
    var text := web + (year + dash + two) + slash + padded;
    assert FormatInvoiceNumber(startYear, serial) == text;
    var n := |year|;
    assert text[..4] == web && text[4..4 + n] == year && text[4 + n] == '-';
    assert text[5 + n..7 + n] == two && text[7 + n] == '/' && text[8 + n..] == padded;
  }
}
