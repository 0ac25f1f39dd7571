/** Rounding of quotients, exactly (backend/src/billing/gst.ts:87-108). */
module Rounding {
  import opened Numbers

  /** `Math.round` of n / d: halves go up. */
  function MathRound(n: int, d: int): int
    requires d > 0
  {
    (2 * n + d) / (2 * d)
  }

  /** n / d rounded to the nearest whole number, a half away from zero. */
  function RoundHalfAwayFromZero(n: int, d: int): int
    requires d > 0
  {
    if n < 0 then -MathRound(-n, d) else MathRound(n, d)
  }

  /** `Math.trunc` of a / b. */
  function TruncDiv(a: int, b: int): int
    requires b != 0
  {
    if b < 0 then TruncDivPositive(-a, -b) else TruncDivPositive(a, b)
  }

  function TruncDivPositive(a: int, b: int): int
    requires b > 0
  {
    if a < 0 then -((-a) / b) else a / b
  }

  lemma QuotientBounds(a: int, b: int)
    requires b > 0
    ensures b * (a / b) <= a < b * (a / b) + b
  {
  }

  lemma QuotientIs(a: int, b: int, q: int)
    requires b > 0 && b * q <= a < b * q + b
    ensures a / b == q
  {
    QuotientBounds(a, b);
    var e := a / b - q;
    assert b * (a / b) == b * q + b * e;
    assert e >= 1 ==> b * e >= b;
    assert e <= -1 ==> b * e <= -b;
  }

  /** Rounding is off by at most a half. */
  lemma RoundBounds(n: int, d: int)
    requires d > 0
    ensures 2 * Abs(d * RoundHalfAwayFromZero(n, d) - n) <= d
  {
    var m := if n < 0 then -n else n;
    QuotientBounds(2 * m + d, 2 * d);
    var q := MathRound(m, d);
    assert 2 * d * q <= 2 * m + d < 2 * d * q + 2 * d;
    if n < 0 {
      assert d * -q == -(d * q);
    }
  }

  /** Nothing else is as near, except on the far side of a half. */
  lemma RoundIs(n: int, d: int, r: int)
    requires d > 0 && 2 * Abs(d * r - n) < d
    ensures RoundHalfAwayFromZero(n, d) == r
  {
    if n < 0 {
      assert d * -r == -(d * r);
      QuotientIs(2 * -n + d, 2 * d, -r) by { assert 2 * d * -r == 2 * (d * -r); }
    } else {
      QuotientIs(2 * n + d, 2 * d, r) by { assert 2 * d * r == 2 * (d * r); }
    }
  }

  /** A half goes away from zero. */
  lemma HalfGoesAway(n: int, d: int, r: int)
    requires d > 0 && r >= 0 && 2 * n == d * (2 * r + 1)
    ensures RoundHalfAwayFromZero(n, d) == r + 1 && RoundHalfAwayFromZero(-n, d) == -(r + 1)
  {
    assert d * (2 * r + 1) == 2 * d * r + d;
    assert d * r >= 0;
    QuotientIs(2 * n + d, 2 * d, r + 1) by { assert 2 * d * (r + 1) == 2 * d * r + 2 * d; }
  }

  lemma RoundIsOdd(n: int, d: int)
    requires d > 0
    ensures RoundHalfAwayFromZero(-n, d) == -RoundHalfAwayFromZero(n, d)
  {
    if n == 0 {
      QuotientIs(d, 2 * d, 0);
    }
  }

  /** `Math.trunc` drops the fraction: the size of the quotient rounded down, with its sign. */
  lemma TruncIs(a: int, b: int)
    requires b != 0
    ensures Abs(TruncDiv(a, b)) == Abs(a) / Abs(b)
    ensures TruncDiv(a, b) != 0 ==> (TruncDiv(a, b) > 0 <==> (a > 0 <==> b > 0))
  {
    hide TruncDivPositive;
    TruncPositiveIs(a, Abs(b));
    TruncPositiveIs(-a, Abs(b));
  }

  lemma TruncPositiveIs(a: int, b: int)
    requires b > 0
    ensures Abs(TruncDivPositive(a, b)) == Abs(a) / b
    ensures TruncDivPositive(a, b) != 0 ==> (TruncDivPositive(a, b) > 0 <==> a > 0)
  {
    NotNegative(Abs(a), b);
  }

  lemma NotNegative(a: nat, b: int)
    requires b > 0
    ensures a / b >= 0 && 0 / b == 0
  {
    QuotientBounds(a, b);
    QuotientIs(0, b, 0);
  }

  lemma TruncIsOdd(a: int, b: int)
    requires b != 0
    ensures TruncDiv(-a, b) == -TruncDiv(a, b) && TruncDiv(a, -b) == -TruncDiv(a, b)
  {
    if a == 0 {
      QuotientIs(0, Abs(b), 0);
    }
  }
}
