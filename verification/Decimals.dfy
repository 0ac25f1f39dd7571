/** Whole numbers written in decimal digits, and read back. */
module Decimals {

  const DIGITS := "0123456789"

  function Digits(n: nat): (s: string)
    ensures s != [] && forall c :: c in s ==> c in DIGITS
  {
    if n < 10 then [DIGITS[n]] else Digits(n / 10) + [DIGITS[n % 10]]
  }

  function Decimal(n: int): string {
    if n < 0 then "-" + Digits(-n) else Digits(n)
  }

  // ---------- Reading a number back ----------

  function DigitValue(c: char): nat {
    if '0' <= c <= '9' then (c - '0') as nat else 0
  }

  function NumberOf(s: string): nat {
    if s == [] then 0 else 10 * NumberOf(s[..|s| - 1]) + DigitValue(s[|s| - 1])
  }

  lemma {:induction false} DigitsReadBack(n: nat)
    ensures NumberOf(Digits(n)) == n
  {
    if n >= 10 {
      DigitsReadBack(n / 10);
      assert Digits(n)[..|Digits(n)| - 1] == Digits(n / 10);
    } else {
      assert Digits(n)[..0] == [];
    }
  }

  predicate IsDigit(c: char) {
    '0' <= c <= '9'
  }

  lemma DigitOf(c: char)
    requires IsDigit(c)
    ensures 0 <= DigitValue(c) <= 9 && DIGITS[DigitValue(c)] == c && NumberOf([c]) == DigitValue(c)
  {
    assert [c][..0] == [];
  }

  lemma OneMoreDigit(n: nat, v: nat)
    requires n >= 1 && v <= 9
    ensures Digits(10 * n + v) == Digits(n) + [DIGITS[v]]
  {
    assert (10 * n + v) / 10 == n && (10 * n + v) % 10 == v;
  }

  /** Digits without a leading zero are how their number is written. */
  lemma {:induction false} DigitsOfNumber(s: string)
    requires s != [] && (|s| == 1 || s[0] != '0') && forall c :: c in s ==> IsDigit(c)
    ensures Digits(NumberOf(s)) == s && (s[0] != '0' ==> NumberOf(s) >= 1)
  {
    hide Digits, DigitValue;
    var n := |s| - 1;
    assert s[n] in s;
    DigitOf(s[n]);
    if n == 0 {
      assert s == [s[0]];
      OneDigit(s[0]);
    } else {
      DigitsOfNumber(s[..n]);
      OneMoreDigit(NumberOf(s[..n]), DigitValue(s[n]));
      assert s == s[..n] + [s[n]];
    }
  }

  lemma OneDigit(c: char)
    requires IsDigit(c)
    ensures Digits(DigitValue(c)) == [c] && (c != '0' ==> DigitValue(c) >= 1)
  {
  }

  /** A number is written without a leading zero. */
  lemma {:induction false} NoLeadingZero(n: nat)
    ensures |Digits(n)| == 1 || Digits(n)[0] != '0'
    ensures n >= 1 ==> Digits(n)[0] != '0'
    ensures n < 1000 <==> |Digits(n)| <= 3
    ensures n < 100 <==> |Digits(n)| <= 2
    ensures n < 10 <==> |Digits(n)| <= 1
    ensures forall c :: c in Digits(n) ==> IsDigit(c)
  {
    if n >= 10 {
      NoLeadingZero(n / 10);
    }
  }
}
