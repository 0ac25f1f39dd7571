/**
 What a discount does to an invoice, what a credit note reverses, and prices that include tax
 (backend/src/billing/gst.ts:163-187, backend/src/billing/gst.ts:219-227,
 backend/src/billing/invoice.service.ts:291-339).
 */
module GstDiscount {
  import opened Numbers
  import opened Options
  import opened Rounding
  import opened Gst

  predicate NonNegative(s: seq<int>) {
    forall i :: 0 <= i < |s| ==> s[i] >= 0
  }

  // ---------- Apportioning ----------

  /** Every line but the last takes its proportional share rounded down. */
  lemma ProportionalBounds(d: int, l: int, g: int)
    requires 0 <= d <= g && 0 < g && 0 <= l
    ensures var s := Proportional(d, l, g);
            g * s <= d * l < g * s + g && 0 <= s <= l
  {
    ProductRange(d, l, g);
    FloorBounds(d * l, l, g);
  }

  lemma ProductRange(d: int, l: int, g: int)
    requires 0 <= d <= g && 0 <= l
    ensures 0 <= d * l <= g * l
  {
    assert (g - d) * l >= 0 && (g - d) * l == g * l - d * l;
  }

  lemma FloorBounds(x: int, l: int, g: int)
    requires 0 < g && 0 <= x <= g * l
    ensures var s := TruncDiv(x, g);
            g * s <= x < g * s + g && 0 <= s <= l
  {
    QuotientBounds(x, g);
    var s := x / g;
    NotMore(g, s, l);
    NotMore(g, 0, s + 1);
  }

  lemma NotMore(g: int, s: int, l: int)
    requires g > 0 && g * s <= g * l
    ensures s <= l
  {
    ProductAtLeast(g, s - l);
    assert g * (s - l) == g * s - g * l;
  }

  lemma ProductAtLeast(g: int, e: int)
    requires g > 0
    ensures e >= 1 ==> g * e >= g
  {
  }

  lemma {:induction false} SumOfProportionals(d: int, ls: seq<int>, g: int)
    requires 0 <= d <= g && 0 < g && NonNegative(ls)
    ensures d * Sum(ls) - |ls| * (g - 1) <= g * Sum(Proportionals(d, ls, g)) <= d * Sum(ls)
  {
    hide Proportional;
    if ls != [] {
      var n := |ls| - 1;
      SumOfProportionals(d, ls[..n], g);
      assert Proportionals(d, ls, g)[..n] == Proportionals(d, ls[..n], g);
      ProportionalBounds(d, ls[n], g);
      OneMoreShare(d, g, n, Sum(ls[..n]), ls[n], Sum(Proportionals(d, ls[..n], g)), Proportional(d, ls[n], g));
    }
  }

  lemma OneMoreShare(d: int, g: int, n: int, sum: int, l: int, shares: int, share: int)
    requires d * sum - n * (g - 1) <= g * shares <= d * sum
    requires g * share <= d * l < g * share + g
    ensures d * (sum + l) - (n + 1) * (g - 1) <= g * (shares + share) <= d * (sum + l)
  {
    assert g * (shares + share) == g * shares + g * share;
    assert d * (sum + l) == d * sum + d * l;
    assert (n + 1) * (g - 1) == n * (g - 1) + (g - 1);
  }

  lemma SharesSum(d: int, ls: seq<int>)
    requires ls != []
    ensures Sum(Shares(d, ls)) == d
  {
    hide Proportional;
    var n := |ls| - 1;
    assert Shares(d, ls)[..n] == Proportionals(d, ls[..n], Sum(ls));
  }

  /** The shares are exactly the discount; each but the last is its proportion rounded down, so less than a
      paisa short, and within its line; the last is over its proportion by less than a paisa a line. */
  lemma SharesAreFair(d: int, ls: seq<int>)
    requires ls != [] && NonNegative(ls) && 0 <= d <= Sum(ls) && 0 < Sum(ls)
    ensures Sum(Shares(d, ls)) == d
    ensures forall i :: 0 <= i < |ls| - 1 ==>
              0 <= Shares(d, ls)[i] <= ls[i]
              && Sum(ls) * Shares(d, ls)[i] <= d * ls[i] < Sum(ls) * Shares(d, ls)[i] + Sum(ls)
    ensures var n, last := |ls| - 1, Shares(d, ls)[|ls| - 1];
            d * ls[n] <= Sum(ls) * last <= d * ls[n] + n * (Sum(ls) - 1)
  {
    hide Proportional;
    var n, g := |ls| - 1, Sum(ls);
    SharesSum(d, ls);
    forall i | 0 <= i < n
      ensures Shares(d, ls)[i] == Proportional(d, ls[i], g)
    {
      ShareAt(d, ls, i);
    }
    forall i | 0 <= i < n
      ensures 0 <= Proportional(d, ls[i], g) <= ls[i]
      ensures g * Proportional(d, ls[i], g) <= d * ls[i] < g * Proportional(d, ls[i], g) + g
    {
      ProportionalBounds(d, ls[i], g);
    }
    LastShare(d, ls);
  }

  lemma LastShare(d: int, ls: seq<int>)
    requires ls != [] && NonNegative(ls) && 0 <= d <= Sum(ls) && 0 < Sum(ls)
    ensures var n, last := |ls| - 1, Shares(d, ls)[|ls| - 1];
            d * ls[n] <= Sum(ls) * last <= d * ls[n] + n * (Sum(ls) - 1)
  {
    hide Proportional;
    hide Sum;
    var n, g := |ls| - 1, Sum(ls);
    var s := Sum(Proportionals(d, ls[..n], g));
    SumSplit(ls);
    SumOfProportionals(d, ls[..n], g);
    WhatIsLeft(g, d, s, Sum(ls[..n]), ls[n], n);
  }

  lemma WhatIsLeft(g: int, d: int, s: int, rest: int, l: int, n: int)
    requires g == rest + l && d * rest - n * (g - 1) <= g * s <= d * rest
    ensures d * l <= g * (d - s) <= d * l + n * (g - 1)
  {
    assert g * (d - s) == g * d - g * s;
    assert g * d == d * rest + d * l;
  }

  // ---------- Whether a discount is taken off ----------

  /** Zero, `whole`, or on the way from the one to the other. */
  predicate IsPartOf(part: int, whole: int) {
    0 <= part <= whole || whole <= part <= 0
  }

  lemma DiscountIsPart(asked: Option<int>, gross: int)
    ensures IsPartOf(Discount(asked, gross), gross)
  {
  }

  /** What of the discount asked for is given: all of it, on either side of zero, but no more than the document,
      and nothing when nothing or less is asked for. */
  lemma DiscountIs(asked: Option<int>, gross: int)
    ensures asked.None? || asked.value <= 0 ==> Discount(asked, gross) == 0
    ensures asked.Some? && 0 <= asked.value <= Abs(gross) ==> Abs(Discount(asked, gross)) == asked.value
    ensures asked.Some? && asked.value >= Abs(gross) ==> Discount(asked, gross) == gross
  {
  }

  lemma ShareIsPart(d: int, l: int, g: int)
    requires IsPartOf(d, g)
    ensures IsPartOf(Proportional(d, l, g), l)
    decreases g < 0
  {
    hide TruncDiv;
    if g < 0 {
      ProportionalReverses(-d, -l, -g);
      ShareIsPart(-d, -l, -g);
    } else if g > 0 {
      if l >= 0 {
        ProportionalBounds(d, l, g);
      } else {
        ProportionalBounds(d, -l, g);
        assert -(d * -l) == d * l;
        TruncIsOdd(d * -l, g);
      }
    }
  }

  predicate IsOverdrawn(share: int, gross: int) {
    share > gross > 0 || share < gross < 0
  }

  lemma TaxableIs(gross: int, share: int)
    ensures Taxable(gross, share) == if IsOverdrawn(share, gross) then 0 else gross - share
    ensures IsPartOf(share, gross) ==> !IsOverdrawn(share, gross)
  {
  }

  /** The branch of `taxLine` that fails: a share beyond its line, which is then taxed on nothing. */
  predicate LastIsOverdrawn(d: int, ls: seq<int>) {
    ls != [] && IsOverdrawn(Shares(d, ls)[|ls| - 1], ls[|ls| - 1])
  }

  /** What of a discount is not taken off. */
  function Lost(d: int, ls: seq<int>): int {
    if LastIsOverdrawn(d, ls) then Shares(d, ls)[|ls| - 1] - ls[|ls| - 1] else 0
  }

  lemma LostIsZeroIff(d: int, ls: seq<int>)
    ensures Lost(d, ls) == 0 <==> !LastIsOverdrawn(d, ls)
  {
    hide Shares;
  }

  lemma {:induction false} SumOfDifferences(ls: seq<int>, shares: seq<int>, amounts: seq<Amounts>)
    requires |ls| == |shares| == |amounts|
    requires forall i :: 0 <= i < |ls| ==> amounts[i].taxable == ls[i] - shares[i]
    ensures Total(amounts).taxable == Sum(ls) - Sum(shares)
  {
    if ls != [] {
      var n := |ls| - 1;
      SumOfDifferences(ls[..n], shares[..n], amounts[..n]);
    }
  }

  lemma TaxableOfLine(gross: int, rate: int, kind: TaxKind, share: int)
    ensures LineAmounts(gross, rate, kind, share).taxable == Taxable(gross, share)
  {
    hide RoundHalfAwayFromZero, Taxable;
  }

  lemma TaxableAt(d: int, ls: seq<int>, rates: seq<int>, kind: TaxKind, i: nat)
    requires |rates| == |ls| && IsPartOf(d, Sum(ls)) && i < |ls|
    ensures var share := Shares(d, ls)[i];
            AllAmounts(ls, rates, kind, d)[i].taxable == (if IsOverdrawn(share, ls[i]) then 0 else ls[i] - share)
            && (i < |ls| - 1 ==> !IsOverdrawn(share, ls[i]))
  {
    hide Proportional, LineAmounts, Taxable, Shares, Sum, IsOverdrawn, IsPartOf;
    TaxableOfLine(ls[i], rates[i], kind, Shares(d, ls)[i]);
    TaxableIs(ls[i], Shares(d, ls)[i]);
    ShareAt(d, ls, i);
    ShareIsPart(d, ls[i], Sum(ls));
  }

  lemma SumWithOverdrawnLast(ls: seq<int>, shares: seq<int>, amounts: seq<Amounts>, over: int)
    requires |ls| == |shares| == |amounts| > 0
    requires forall i :: 0 <= i < |ls| - 1 ==> amounts[i].taxable == ls[i] - shares[i]
    requires amounts[|ls| - 1].taxable == ls[|ls| - 1] - shares[|ls| - 1] + over
    ensures Total(amounts).taxable == Sum(ls) - Sum(shares) + over
  {
    hide Total, Sum;
    var n := |ls| - 1;
    TotalSplit(amounts);
    SumSplit(ls);
    SumSplit(shares);
    SumOfDifferences(ls[..n], shares[..n], amounts[..n]);
  }

  /** Only the last line can be overdrawn, and the subtotal is off by what it was overdrawn. */
  lemma SubtotalIs(d: int, ls: seq<int>, rates: seq<int>, kind: TaxKind)
    requires |rates| == |ls| && IsPartOf(d, Sum(ls))
    ensures Total(AllAmounts(ls, rates, kind, d)).taxable == Sum(ls) - d + Lost(d, ls)
  {
    hide LineAmounts, Shares, Total, Sum, IsOverdrawn, IsPartOf;
    if ls == [] {
      NoAmounts(rates, kind, d);
    } else {
      SharesSum(d, ls);
      forall i | 0 <= i < |ls|
        ensures var share := Shares(d, ls)[i];
                AllAmounts(ls, rates, kind, d)[i].taxable == (if IsOverdrawn(share, ls[i]) then 0 else ls[i] - share)
                && (i < |ls| - 1 ==> !IsOverdrawn(share, ls[i]))
      {
        TaxableAt(d, ls, rates, kind, i);
      }
      SumWithOverdrawnLast(ls, Shares(d, ls), AllAmounts(ls, rates, kind, d), Lost(d, ls));
    }
  }

  lemma NoAmounts(rates: seq<int>, kind: TaxKind, d: int)
    requires rates == [] && IsPartOf(d, Sum([]))
    ensures Total(AllAmounts([], rates, kind, d)).taxable == 0 && Sum([]) == 0 && d == 0
  {
  }

  lemma {:induction false} TotalSplit(amounts: seq<Amounts>)
    requires amounts != []
    ensures var n := |amounts| - 1;
            Total(amounts).taxable == Total(amounts[..n]).taxable + amounts[n].taxable
  {
  }

  lemma {:induction false} SumSplit(s: seq<int>)
    requires s != []
    ensures Sum(s) == Sum(s[..|s| - 1]) + s[|s| - 1]
  {
  }

  /** Of any invoice, credit lines included: the subtotal is the gross less the discount exactly when the last
      line is not overdrawn. */
  lemma DiscountIsTakenOffIff(lines: seq<LineItem>, kind: TaxKind, asked: Option<int>)
    ensures var ls := Grosses(lines);
            var d := Discount(asked, Sum(ls));
            Total(AmountsOf(lines, kind, asked)).taxable == Sum(ls) - d <==> !LastIsOverdrawn(d, ls)
  {
    hide Shares, Sum, AllAmounts, Total, Discount, LastIsOverdrawn, Lost, IsPartOf;
    var ls := Grosses(lines);
    DiscountIsPart(asked, Sum(ls));
    SubtotalIs(Discount(asked, Sum(ls)), ls, Rates(lines), kind);
    LostIsZeroIff(Discount(asked, Sum(ls)), ls);
  }

  /** No line is taxed on the other side of zero, nor a line of zero on anything, unless the last costs nothing and
      a share of the discount is left for it. */
  lemma NoLinePastZeroIff(d: int, ls: seq<int>, rates: seq<int>, kind: TaxKind)
    requires ls != [] && |rates| == |ls| && IsPartOf(d, Sum(ls))
    ensures (forall i :: 0 <= i < |ls| ==>
               var taxable := AllAmounts(ls, rates, kind, d)[i].taxable;
               taxable == 0 || Sign(taxable) == Sign(ls[i]))
            <==> !(ls[|ls| - 1] == 0 && Shares(d, ls)[|ls| - 1] != 0)
  {
    hide Proportional, LineAmounts, Shares, Sum;
    var n := |ls| - 1;
    forall i | 0 <= i <= n
      ensures var taxable := AllAmounts(ls, rates, kind, d)[i].taxable;
              i < n ==> taxable == 0 || Sign(taxable) == Sign(ls[i])
    {
      TaxableAt(d, ls, rates, kind, i);
      ShareAt(d, ls, i);
      ShareIsPart(d, ls[i], Sum(ls));
    }
    TaxableAt(d, ls, rates, kind, n);
  }

  /** Such a line there can be: two of 50 paise and a free one, less 1 paisa, which the free one is credited. */
  lemma FreeLineCanBeCredited(rates: seq<int>, kind: TaxKind)
    requires |rates| == 3
    ensures Shares(1, [50, 50, 0]) == [0, 0, 1] && AllAmounts([50, 50, 0], rates, kind, 1)[2].taxable == -1
  {
    hide Sum, LineAmounts;
    var ls := [50, 50, 0];
    SumOfTwo(50, 50);
    SumOfTwo(0, 0);
    SumSplit(ls);
    assert ls[..2] == [50, 50];
    assert Proportional(1, 50, 100) == 0;
    assert Proportionals(1, ls[..2], 100) == [0, 0];
    assert Shares(1, ls) == [0, 0] + [1];
    hide Shares, Proportional;
    TaxableAt(1, ls, rates, kind, 2);
  }

  /** It can be: of 50, 50 and 1 paise less 100, the last line's share is 2, and 2 paise are charged, not 1. */
  lemma DiscountCanBeLost(rates: seq<int>, kind: TaxKind)
    requires |rates| == 3
    ensures Sum([50, 50, 1]) == 101 && Shares(100, [50, 50, 1]) == [49, 49, 2]
    ensures Total(AllAmounts([50, 50, 1], rates, kind, 100)).taxable == 2
  {
    hide Sum, AllAmounts, Total, LineAmounts;
    var ls := [50, 50, 1];
    SumOfTwo(50, 50);
    SumOfTwo(49, 49);
    SumSplit(ls);
    assert ls[..2] == [50, 50];
    assert Proportional(100, 50, 101) == 49;
    assert Proportionals(100, ls[..2], 101) == [49, 49];
    assert Shares(100, ls) == [49, 49] + [2];
    hide Shares, Proportional;
    SubtotalIs(100, ls, rates, kind);
  }

  lemma {:induction false} SumOfTwo(a: int, b: int)
    ensures Sum([a, b]) == a + b
  {
    assert [a, b][..1] == [a] && [a][..0] == [];
    assert Sum([a]) == a;
  }

  /** When the last line leaves room for the rounding of the others, no line passes zero and the whole
      discount is taken off. */
  lemma RoomIsEnough(d: int, ls: seq<int>, rates: seq<int>, kind: TaxKind)
    requires ls != [] && |rates| == |ls| && NonNegative(ls) && 0 <= d <= Sum(ls) && 0 < Sum(ls)
    requires ls[|ls| - 1] * (Sum(ls) - d) >= (|ls| - 1) * Sum(ls)
    ensures forall i :: 0 <= i < |ls| ==> Shares(d, ls)[i] <= ls[i]
    ensures Total(AllAmounts(ls, rates, kind, d)).taxable == Sum(ls) - d
  {
    hide Shares, Sum, AllAmounts, Total;
    var n, g, last := |ls| - 1, Sum(ls), Shares(d, ls)[|ls| - 1];
    SharesAreFair(d, ls);
    EnoughRoom(g, d, ls[n], last, n);
    SubtotalIs(d, ls, rates, kind);
  }

  lemma EnoughRoom(g: int, d: int, l: int, last: int, n: int)
    requires g > 0 && n >= 0 && g * last <= d * l + n * (g - 1) && l * (g - d) >= n * g
    ensures last <= l
  {
    assert l * (g - d) == l * g - d * l;
    assert n * (g - 1) == n * g - n;
    NotMore(g, last, l);
  }

  // ---------- Credit notes ----------

  function CreditLine(line: TaxedLine): LineItem {
    LineItem("Credit: " + line.item.description, -line.item.unitPriceInPaise, line.item.quantity,
             Some(line.sacCode), Some(line.gstRateBps))
  }

  /** The lines of a credit note: those of the invoice with their prices negated, and no discount. */
  function CreditLines(taxed: seq<TaxedLine>): (r: seq<LineItem>)
    ensures |r| == |taxed| && forall i :: 0 <= i < |r| ==> r[i] == CreditLine(taxed[i])
  {
    seq(|taxed|, i requires 0 <= i < |taxed| => CreditLine(taxed[i]))
  }

  lemma CreditLinesAreReversed(lines: seq<LineItem>, kind: TaxKind, d: int, taxed: seq<TaxedLine>)
    requires |taxed| == |lines| && forall i :: 0 <= i < |lines| ==>
               taxed[i] == TaxLine(lines[i], kind, Shares(d, Grosses(lines))[i])
    ensures Grosses(CreditLines(taxed)) == Grosses(Reversed(lines))
            && Rates(CreditLines(taxed)) == Rates(Reversed(lines))
  {
    hide LineAmounts, Shares;
  }

  /** A credit note, for the same parties, of an invoice issued without a discount: every amount of every line
      and of the document is the exact opposite, so the two sum to zero. */
  lemma CreditNoteReverses(lines: seq<LineItem>, kind: TaxKind, asked: Option<int>, taxed: seq<TaxedLine>)
    requires |taxed| == |lines|
    requires forall i :: 0 <= i < |lines| ==>
               taxed[i] == TaxLine(lines[i], kind, Shares(Discount(asked, Sum(Grosses(lines))), Grosses(lines))[i])
    requires Discount(asked, Sum(Grosses(lines))) == 0
    ensures var original, credit := AmountsOf(lines, kind, asked), AmountsOf(CreditLines(taxed), kind, None);
            (forall i :: 0 <= i < |lines| ==> credit[i] == Opposite(original[i]))
            && Total(credit) == Opposite(Total(original))
            && Rupees(Total(credit).taxable + Tax(Total(credit)))
                == -Rupees(Total(original).taxable + Tax(Total(original)))
  {
    hide Shares, Sum, Total, LineAmounts, Tax, Rupees, CreditLines;
    CreditLinesAreReversed(lines, kind, Discount(asked, Sum(Grosses(lines))), taxed);
    ExactReversal(lines, kind, None);
    assert AmountsOf(CreditLines(taxed), kind, None) == AmountsOf(Reversed(lines), kind, None);
    NoDiscount(Sum(Grosses(lines)));
    assert AmountsOf(lines, kind, None) == AmountsOf(lines, kind, asked);
  }

  lemma NoDiscount(gross: int)
    ensures Discount(None, gross) == 0
  {
  }

  /** A credit note repeats the prices, not the discount; so of any invoice it takes the subtotal back exactly
      when no discount was given, or all of it was lost. */
  lemma CreditNoteSubtotalIff(lines: seq<LineItem>, kind: TaxKind, asked: Option<int>, taxed: seq<TaxedLine>)
    requires |taxed| == |lines|
    requires forall i :: 0 <= i < |lines| ==>
               taxed[i] == TaxLine(lines[i], kind, Shares(Discount(asked, Sum(Grosses(lines))), Grosses(lines))[i])
    ensures var d := Discount(asked, Sum(Grosses(lines)));
            Total(AmountsOf(CreditLines(taxed), kind, None)).taxable == -Total(AmountsOf(lines, kind, asked)).taxable
            <==> d == Lost(d, Grosses(lines))
  {
    hide Shares, Sum, Total, LineAmounts, CreditLines, Discount, AllAmounts, Lost, IsPartOf;
    var ls := Grosses(lines);
    var g, d := Sum(ls), Discount(asked, Sum(ls));
    CreditLinesAreReversed(lines, kind, d, taxed);
    ExactReversal(lines, kind, None);
    NoDiscount(g);
    SumReversed(lines);
    NoDiscount(-g);
    NothingLost(ls);
    SubtotalIs(0, ls, Rates(lines), kind);
    assert Total(AmountsOf(CreditLines(taxed), kind, None)).taxable == -g;
    DiscountIsPart(asked, g);
    SubtotalIs(d, ls, Rates(lines), kind);
  }

  /** Of any invoice: every line of the credit note is the exact opposite of the invoice's exactly when there was no
      discount. Of non-negative lines that goes for the totals too. */
  lemma CreditNoteReversesIff(lines: seq<LineItem>, kind: TaxKind, asked: Option<int>, taxed: seq<TaxedLine>)
    requires |taxed| == |lines|
    requires forall i :: 0 <= i < |lines| ==>
               taxed[i] == TaxLine(lines[i], kind, Shares(Discount(asked, Sum(Grosses(lines))), Grosses(lines))[i])
    ensures (forall i :: 0 <= i < |lines| ==>
               AmountsOf(CreditLines(taxed), kind, None)[i] == Opposite(AmountsOf(lines, kind, asked)[i]))
            <==> Discount(asked, Sum(Grosses(lines))) == 0
    ensures NonNegative(Grosses(lines)) ==>
              (Total(AmountsOf(CreditLines(taxed), kind, None)) == Opposite(Total(AmountsOf(lines, kind, asked)))
               <==> Discount(asked, Sum(Grosses(lines))) == 0)
  {
    hide Shares, Sum, Total, LineAmounts, CreditLines, Discount, AmountsOf, Lost, IsPartOf, NonNegative;
    var ls := Grosses(lines);
    var d := Discount(asked, Sum(ls));
    if d == 0 {
      CreditNoteReverses(lines, kind, asked, taxed);
    } else {
      DiscountIsPart(asked, Sum(ls));
      var i := SomeShare(d, ls);
      CreditedLineDiffers(lines, kind, asked, taxed, i);
      if NonNegative(ls) {
        CreditNoteSubtotalIff(lines, kind, asked, taxed);
        NotAllIsLost(d, ls);
      }
    }
  }

  /** Somebody bears a discount. */
  lemma SomeShare(d: int, ls: seq<int>) returns (i: nat)
    requires d != 0 && IsPartOf(d, Sum(ls))
    ensures i < |ls| && Shares(d, ls)[i] != 0
  {
    hide Shares, Sum;
    assert ls != [] by { NoSum(d); }
    if forall j :: 0 <= j < |ls| ==> Shares(d, ls)[j] == 0 {
      SharesSum(d, ls);
      SumOfZeros(Shares(d, ls));
      assert false;
    }
    i :| 0 <= i < |ls| && Shares(d, ls)[i] != 0;
  }

  lemma NoSum(d: int)
    ensures d != 0 ==> !IsPartOf(d, Sum([]))
  {
  }

  lemma CreditedLineDiffers(lines: seq<LineItem>, kind: TaxKind, asked: Option<int>, taxed: seq<TaxedLine>, i: nat)
    requires |taxed| == |lines| && i < |lines|
    requires forall j :: 0 <= j < |lines| ==>
               taxed[j] == TaxLine(lines[j], kind, Shares(Discount(asked, Sum(Grosses(lines))), Grosses(lines))[j])
    requires Shares(Discount(asked, Sum(Grosses(lines))), Grosses(lines))[i] != 0
    ensures |AmountsOf(CreditLines(taxed), kind, None)| == |AmountsOf(lines, kind, asked)| == |lines|
    ensures AmountsOf(CreditLines(taxed), kind, None)[i].taxable != -AmountsOf(lines, kind, asked)[i].taxable
  {
    hide Shares, Sum, LineAmounts, CreditLines, Discount, IsPartOf, Lost;
    var ls := Grosses(lines);
    var d := Discount(asked, Sum(ls));
    CreditLinesAreReversed(lines, kind, d, taxed);
    ColumnsReverse(lines);
    DiscountIsPart(asked, Sum(ls));
    NoDiscount(Sum(Negated(ls)));
    NothingLost(Negated(ls));
    TaxableAt(d, ls, Rates(lines), kind, i);
    TaxableAt(0, Negated(ls), Rates(lines), kind, i);
    NoShare(Negated(ls), i);
  }

  lemma NoShare(ls: seq<int>, i: nat)
    requires i < |ls|
    ensures Shares(0, ls)[i] == 0
  {
    hide Sum, Proportional;
    var n, others := |ls| - 1, Proportionals(0, ls[..|ls| - 1], Sum(ls));
    forall j | 0 <= j < n
      ensures others[j] == 0
    {
      NothingOf(ls[j], Sum(ls));
    }
    SumOfZeros(others);
  }

  /** The whole of a discount is never lost on non-negative lines: the last line takes no more than all of it. */
  lemma NotAllIsLost(d: int, ls: seq<int>)
    requires NonNegative(ls) && IsPartOf(d, Sum(ls)) && d != 0
    ensures Lost(d, ls) != d
  {
    hide Shares, Sum;
    SumOfNonNegative(ls);
    assert ls != [] by { NoAmounts([], Igst, 0); }
    LastTakesNoMoreThanAll(d, ls);
  }

  lemma NothingLost(ls: seq<int>)
    ensures Lost(0, ls) == 0 && IsPartOf(0, Sum(ls))
  {
    hide Sum, Shares;
    if ls != [] {
      NoShare(ls, |ls| - 1);
    }
  }

  lemma NothingOf(l: int, g: int)
    ensures Proportional(0, l, g) == 0
  {
    assert 0 * l == 0;
  }

  lemma {:induction false} SumOfZeros(s: seq<int>)
    requires forall i :: 0 <= i < |s| ==> s[i] == 0
    ensures Sum(s) == 0
  {
    if s != [] {
      SumOfZeros(s[..|s| - 1]);
    }
  }

  lemma SumReversed(lines: seq<LineItem>)
    ensures Sum(Grosses(Reversed(lines))) == -Sum(Grosses(lines))
  {
    hide Sum;
    SumReverses(Grosses(lines));
    ColumnsReverse(lines);
  }

  lemma {:induction false} SumOfNonNegative(s: seq<int>)
    requires NonNegative(s)
    ensures Sum(s) >= 0
  {
    if s != [] {
      SumOfNonNegative(s[..|s| - 1]);
    }
  }

  lemma LastTakesNoMoreThanAll(d: int, ls: seq<int>)
    requires ls != [] && NonNegative(ls) && 0 <= d <= Sum(ls) && 0 < Sum(ls)
    ensures Shares(d, ls)[|ls| - 1] <= d
  {
    hide Shares;
    SharesAreFair(d, ls);
    SumSplit(Shares(d, ls));
    SumOfNonNegative(Shares(d, ls)[..|ls| - 1]);
  }

  /** The amount payable is rounded to rupees, so it can cancel all the same: 100 rupees at 18 per cent less one
      paisa are 118 rupees payable, and so is what the credit note takes back. */
  lemma PayableCanCancel()
    ensures var line := LineItem("", 10_000, 1, None, Some(1_800));
            var original := Total(AmountsOf([line], Igst, Some(1)));
            var credit := Total(AmountsOf(CreditLines([TaxLine(line, Igst, 1)]), Igst, None));
            Discount(Some(1), GrossOf(line)) == 1
            && original == Amounts(9_999, 0, 0, 1_800) && credit == Amounts(-10_000, 0, 0, -1_800)
            && Rupees(original.taxable + Tax(original)) == 11_800
            && Rupees(credit.taxable + Tax(credit)) == -11_800
  {
  }

  // ---------- Prices that include tax ----------

  function FromInclusivePrice(inclusive: int, rate: int): (int, int)
    requires rate > -10_000
  {
    var taxable := RoundHalfAwayFromZero(inclusive * 10_000, 10_000 + rate);
    (taxable, inclusive - taxable)
  }

  function TaxOn(taxable: int, rate: int): int {
    RoundHalfAwayFromZero(taxable * rate, 10_000)
  }

  /** Splitting a taxable value plus its tax gives back exactly that value and that tax. */
  lemma InclusiveInvertsTaxing(taxable: int, rate: int)
    requires rate >= 0
    ensures FromInclusivePrice(taxable + TaxOn(taxable, rate), rate) == (taxable, TaxOn(taxable, rate))
  {
    hide RoundHalfAwayFromZero;
    var tax := TaxOn(taxable, rate);
    var p := taxable + tax;
    RoundBounds(taxable * rate, 10_000);
    assert (10_000 + rate) * taxable == 10_000 * taxable + taxable * rate;
    if rate == 0 {
      assert taxable * rate == 0;
      ExactIsKept(taxable, 10_000);
      ExactIsKept(0, 10_000);
    }
    RoundIs(p * 10_000, 10_000 + rate, taxable);
  }

  lemma ExactIsKept(n: int, d: int)
    requires d > 0
    ensures RoundHalfAwayFromZero(n * d, d) == n
  {
    assert d * n - n * d == 0;
    RoundIs(n * d, d, n);
  }

  /** Taxing what an inclusive price splits into comes back to within a paisa of the price, for every rate
      below 200 per cent. */
  lemma InclusiveIsNearlyInverse(inclusive: int, rate: int)
    requires 0 <= rate < 20_000
    ensures var taxable := FromInclusivePrice(inclusive, rate).0;
            Abs(taxable + TaxOn(taxable, rate) - inclusive) <= 1
  {
    hide RoundHalfAwayFromZero;
    var taxable := FromInclusivePrice(inclusive, rate).0;
    RoundBounds(inclusive * 10_000, 10_000 + rate);
    RoundBounds(taxable * rate, 10_000);
    assert (10_000 + rate) * taxable == 10_000 * taxable + taxable * rate;
  }
}
