/**
 GST on an invoice, in whole paise (backend/src/billing/gst.ts).

 What a line is charged depends on three numbers: its gross, its rate and its share of the discount. The
 amounts are defined on those, and the invoice is put together from them.
 */
module Gst {
  import opened Options
  import opened Strings
  import opened Numbers
  import opened Rounding

  const HOSTING_SAC_CODE := "998315"
  const HOSTING_GST_RATE_BPS := 1800

  // ---------- Parties ----------

  datatype TaxKind = CgstSgst | Igst | ZeroRated

  datatype Party = Party(stateCode: string, countryCode: string)

  predicate IsAbroad(customer: Party) {
    customer.countryCode != "" && customer.countryCode != "IN"
  }

  function PlaceOfSupply(supplier: Party, customer: Party): string {
    if IsAbroad(customer) then customer.countryCode
    else if Trim(customer.stateCode) != "" then Trim(customer.stateCode)
    else supplier.stateCode
  }

  function TaxKindFor(supplier: Party, customer: Party): TaxKind {
    if IsAbroad(customer) then ZeroRated
    else if PlaceOfSupply(supplier, customer) == supplier.stateCode then CgstSgst
    else Igst
  }

  // ---------- One line ----------

  datatype Amounts = Amounts(taxable: int, cgst: int, sgst: int, igst: int)

  function Tax(a: Amounts): int { a.cgst + a.sgst + a.igst }

  function Halves(tax: int): (int, int) {
    var sgst := TruncDiv(tax, 2);
    (tax - sgst, sgst)
  }

  /** Reduced by its share, but never to the other side of zero. */
  function Taxable(gross: int, share: int): int {
    var reduced := gross - share;
    if Sign(reduced) == -Sign(gross) then 0 else reduced
  }

  function LineAmounts(gross: int, rate: int, kind: TaxKind, share: int): Amounts {
    var taxable := Taxable(gross, share);
    match kind
    case ZeroRated => Amounts(taxable, 0, 0, 0)
    case Igst => Amounts(taxable, 0, 0, RoundHalfAwayFromZero(taxable * rate, 10_000))
    case CgstSgst =>
      var halves := Halves(RoundHalfAwayFromZero(taxable * rate, 10_000));
      Amounts(taxable, halves.0, halves.1, 0)
  }

  // ---------- All lines ----------

  function Sum(s: seq<int>): int {
    if s == [] then 0 else Sum(s[..|s| - 1]) + s[|s| - 1]
  }

  /** What a line that is not the last takes of a discount `d` on a gross `g`. */
  function Proportional(d: int, gross: int, g: int): int {
    if g == 0 then 0 else TruncDiv(d * gross, g)
  }

  function Proportionals(d: int, grosses: seq<int>, g: int): (s: seq<int>)
    ensures |s| == |grosses| && forall i :: 0 <= i < |s| ==> s[i] == Proportional(d, grosses[i], g)
  {
    seq(|grosses|, i requires 0 <= i < |grosses| => Proportional(d, grosses[i], g))
  }

  /** The shares of a discount `d`: proportional, and the last line takes what is left. */
  function Shares(d: int, grosses: seq<int>): (s: seq<int>)
    ensures |s| == |grosses|
  {
    if grosses == [] then []
    else
      var others := Proportionals(d, grosses[..|grosses| - 1], Sum(grosses));
      others + [d - Sum(others)]
  }

  function AllAmounts(grosses: seq<int>, rates: seq<int>, kind: TaxKind, d: int): (s: seq<Amounts>)
    requires |grosses| == |rates|
    ensures |s| == |grosses|
    ensures forall i :: 0 <= i < |s| ==> s[i] == LineAmounts(grosses[i], rates[i], kind, Shares(d, grosses)[i])
  {
    seq(|grosses|, i requires 0 <= i < |grosses| => LineAmounts(grosses[i], rates[i], kind, Shares(d, grosses)[i]))
  }

  function Total(s: seq<Amounts>): Amounts {
    if s == [] then Amounts(0, 0, 0, 0)
    else
      var t, a := Total(s[..|s| - 1]), s[|s| - 1];
      Amounts(t.taxable + a.taxable, t.cgst + a.cgst, t.sgst + a.sgst, t.igst + a.igst)
  }

  /** The discount as it is applied: no more than the document, and in its direction. */
  function Discount(asked: Option<int>, gross: int): int {
    var magnitude := Min(Max(if asked.Some? then asked.value else 0, 0), Abs(gross));
    magnitude * (if gross < 0 then -1 else 1)
  }

  function Rupees(paise: int): int {
    RoundHalfAwayFromZero(paise, 100) * 100
  }

  // ---------- The invoice ----------

  datatype LineItem = LineItem(description: string, unitPriceInPaise: int, quantity: int, sacCode: Option<string>,
      gstRateBps: Option<int>)

  datatype TaxedLine = TaxedLine(item: LineItem, sacCode: string, gstRateBps: int, amounts: Amounts)

  datatype InvoiceTotals = InvoiceTotals(
    lines: seq<TaxedLine>, taxKind: TaxKind, placeOfSupply: string,
    subtotal: int, discount: int, cgst: int, sgst: int, igst: int, totalTax: int, roundOff: int, total: int)

  function GrossOf(line: LineItem): int { line.unitPriceInPaise * line.quantity }

  function RateOf(line: LineItem): int { line.gstRateBps.GetOr(HOSTING_GST_RATE_BPS) }

  function Grosses(lines: seq<LineItem>): (s: seq<int>)
    ensures |s| == |lines| && forall i :: 0 <= i < |s| ==> s[i] == GrossOf(lines[i])
  {
    seq(|lines|, i requires 0 <= i < |lines| => GrossOf(lines[i]))
  }

  function Rates(lines: seq<LineItem>): (s: seq<int>)
    ensures |s| == |lines| && forall i :: 0 <= i < |s| ==> s[i] == RateOf(lines[i])
  {
    seq(|lines|, i requires 0 <= i < |lines| => RateOf(lines[i]))
  }

  function TaxLine(line: LineItem, kind: TaxKind, share: int): TaxedLine {
    TaxedLine(line, line.sacCode.GetOr(HOSTING_SAC_CODE), RateOf(line),
        LineAmounts(GrossOf(line), RateOf(line), kind, share))
  }

  /** The amounts of an invoice's lines. */
  function AmountsOf(lines: seq<LineItem>, kind: TaxKind, asked: Option<int>): seq<Amounts> {
    AllAmounts(Grosses(lines), Rates(lines), kind, Discount(asked, Sum(Grosses(lines))))
  }

  method SumGross(lines: seq<LineItem>) returns (gross: int)
    ensures gross == Sum(Grosses(lines))
  {
    gross := 0;
    for i := 0 to |lines|
      invariant gross == Sum(Grosses(lines)[..i])
    {
      assert Grosses(lines)[..i + 1][..i] == Grosses(lines)[..i];
      gross := gross + lines[i].unitPriceInPaise * lines[i].quantity;
    }
    assert Grosses(lines)[..|lines|] == Grosses(lines);
  }

  /** Hands the discount out line by line, keeping what has been given so far; the last line takes the rest. */
  method TaxLines(lines: seq<LineItem>, kind: TaxKind, discount: int, gross: int) returns (taxed: seq<TaxedLine>)
    requires gross == Sum(Grosses(lines))
    ensures |taxed| == |lines|
    ensures forall i :: 0 <= i < |lines| ==> taxed[i] == TaxLine(lines[i], kind, Shares(discount, Grosses(lines))[i])
  {
    hide TaxLine, Proportional;
    var distributed := 0;
    taxed := [];
    ghost var others := Proportionals(discount, Grosses(lines), gross);
    for i := 0 to |lines|
      invariant i < |lines| ==> distributed == Sum(others[..i])
      invariant |taxed| == i
      invariant forall j :: 0 <= j < i ==> taxed[j] == TaxLine(lines[j], kind, Shares(discount, Grosses(lines))[j])
    {
      var lineGross := lines[i].unitPriceInPaise * lines[i].quantity;
      assert lineGross == Grosses(lines)[i];
      var share := if i == |lines| - 1 then discount - distributed else Proportional(discount, lineGross, gross);
      ShareAt(discount, Grosses(lines), i);
      assert others[..i + 1][..i] == others[..i];
      distributed := distributed + share;
      taxed := taxed + [TaxLine(lines[i], kind, share)];
    }
  }

  function AmountsIn(taxed: seq<TaxedLine>): (s: seq<Amounts>)
    ensures |s| == |taxed| && forall i :: 0 <= i < |s| ==> s[i] == taxed[i].amounts
  {
    seq(|taxed|, i requires 0 <= i < |taxed| => taxed[i].amounts)
  }

  method AddUp(taxed: seq<TaxedLine>) returns (subtotal: int, cgst: int, sgst: int, igst: int)
    ensures Amounts(subtotal, cgst, sgst, igst) == Total(AmountsIn(taxed))
  {
    subtotal, cgst, sgst, igst := 0, 0, 0, 0;
    for i := 0 to |taxed|
      invariant Amounts(subtotal, cgst, sgst, igst) == Total(AmountsIn(taxed)[..i])
    {
      assert AmountsIn(taxed)[..i + 1][..i] == AmountsIn(taxed)[..i];
      var a := taxed[i].amounts;
      subtotal, cgst, sgst, igst := subtotal + a.taxable, cgst + a.cgst, sgst + a.sgst, igst + a.igst;
    }
    assert AmountsIn(taxed)[..|taxed|] == AmountsIn(taxed);
  }

  /** Calculates an invoice. Every total is the sum over the lines, each line taxed on its gross less its share
      of the discount; the amount payable is whole rupees and the difference is shown. */
  method CalculateInvoice(supplier: Party, customer: Party, lines: seq<LineItem>, discountInPaise: Option<int>)
    returns (t: InvoiceTotals)
    ensures t.taxKind == TaxKindFor(supplier, customer) && t.placeOfSupply == PlaceOfSupply(supplier, customer)
    ensures t.discount == Discount(discountInPaise, Sum(Grosses(lines)))
    ensures |t.lines| == |lines|
    ensures forall i :: 0 <= i < |lines| ==>
              t.lines[i] == TaxLine(lines[i], t.taxKind, Shares(t.discount, Grosses(lines))[i])
    ensures Amounts(t.subtotal, t.cgst, t.sgst, t.igst) == Total(AmountsOf(lines, t.taxKind, discountInPaise))
    ensures t.totalTax == t.cgst + t.sgst + t.igst
    ensures t.total == Rupees(t.subtotal + t.totalTax) && t.roundOff == t.total - (t.subtotal + t.totalTax)
  {
    hide LineAmounts, Shares, Sum, TaxKindFor, PlaceOfSupply, RoundHalfAwayFromZero, Total;
    var taxKind := TaxKindFor(supplier, customer);
    var gross := SumGross(lines);
    var sign := if gross < 0 then -1 else 1;
    var discountMagnitude := Min(Max(discountInPaise.GetOr(0), 0), Abs(gross));
    var discount := discountMagnitude * sign;
    var taxed := TaxLines(lines, taxKind, discount, gross);
    assert AmountsIn(taxed) == AmountsOf(lines, taxKind, discountInPaise);
    var subtotal, cgst, sgst, igst := AddUp(taxed);
    var totalTax := cgst + sgst + igst;
    var beforeRounding := subtotal + totalTax;
    var total := RoundHalfAwayFromZero(beforeRounding, 100) * 100;
    t := InvoiceTotals(taxed, taxKind, PlaceOfSupply(supplier, customer), subtotal, discount, cgst, sgst, igst,
                       totalTax, total - beforeRounding, total);
  }

  lemma ShareAt(d: int, grosses: seq<int>, i: nat)
    requires i < |grosses|
    ensures Shares(d, grosses)[i]
            == if i == |grosses| - 1 then d - Sum(Proportionals(d, grosses, Sum(grosses))[..i])
               else Proportional(d, grosses[i], Sum(grosses))
  {
    hide Proportional, Sum;
    var n := |grosses| - 1;
    var g := Sum(grosses);
    assert Proportionals(d, grosses[..n], g) == Proportionals(d, grosses, g)[..n];
  }

  /** A line that says nothing else is hosting, at 18 per cent: within half a paisa of it, and halves away from
      zero. */
  lemma HostingIsTaxedAt18(line: LineItem)
    requires line.sacCode.None? && line.gstRateBps.None?
    ensures var taxed, gross := TaxLine(line, Igst, 0), line.unitPriceInPaise * line.quantity;
            taxed.sacCode == "998315" && taxed.amounts.taxable == gross
            && 2 * Abs(100 * taxed.amounts.igst - 18 * gross) <= 100
  {
    hide RoundHalfAwayFromZero;
    var gross := line.unitPriceInPaise * line.quantity;
    RoundBounds(gross * 1800, 10_000);
  }

  // ---------- Totals ----------

  lemma RupeesBounds(paise: int)
    ensures Rupees(paise) % 100 == 0 && -50 <= Rupees(paise) - paise <= 50
  {
    hide RoundHalfAwayFromZero;
    RoundBounds(paise, 100);
  }

  lemma HalvesSum(tax: int)
    ensures Halves(tax).0 + Halves(tax).1 == tax
    ensures 0 <= Sign(tax) * (Halves(tax).0 - Halves(tax).1) <= 1
  {
  }

  /** A line's tax is the same whichever authority it goes to, and off by at most half a paisa. */
  lemma LineTax(gross: int, rate: int, kind: TaxKind, share: int)
    requires kind != ZeroRated
    ensures Tax(LineAmounts(gross, rate, kind, share)) == RoundHalfAwayFromZero(Taxable(gross, share) * rate, 10_000)
    ensures LineAmounts(gross, rate, kind, share).taxable == Taxable(gross, share)
    ensures Abs(10_000 * Tax(LineAmounts(gross, rate, kind, share)) - Taxable(gross, share) * rate) <= 5_000
  {
    hide RoundHalfAwayFromZero, Taxable;
    var t := RoundHalfAwayFromZero(Taxable(gross, share) * rate, 10_000);
    HalvesSum(t);
    RoundBounds(Taxable(gross, share) * rate, 10_000);
  }

  /** The tax an exact calculation would charge, times ten thousand. */
  function ExactLineTax(taxable: int, rate: int): int {
    taxable * rate
  }

  function ExactTax(amounts: seq<Amounts>, rates: seq<int>): int
    requires |amounts| == |rates|
  {
    if amounts == [] then 0
    else
      var n := |amounts| - 1;
      ExactTax(amounts[..n], rates[..n]) + ExactLineTax(amounts[n].taxable, rates[n])
  }

  lemma {:induction false} TotalTaxIsNear(amounts: seq<Amounts>, rates: seq<int>)
    requires |amounts| == |rates|
    requires forall i :: 0 <= i < |amounts| ==>
               Abs(10_000 * Tax(amounts[i]) - ExactLineTax(amounts[i].taxable, rates[i])) <= 5_000
    ensures Abs(10_000 * Tax(Total(amounts)) - ExactTax(amounts, rates)) <= 5_000 * |amounts|
  {
    hide ExactLineTax, Tax, Total;
    TotalTaxSplit(amounts);
    if amounts != [] {
      var n := |amounts| - 1;
      TotalTaxIsNear(amounts[..n], rates[..n]);
      assert Abs(10_000 * Tax(amounts[n]) - ExactLineTax(amounts[n].taxable, rates[n])) <= 5_000;
    }
  }

  lemma {:induction false} TotalTaxSplit(amounts: seq<Amounts>)
    ensures Tax(Total(amounts))
            == if amounts == [] then 0 else Tax(Total(amounts[..|amounts| - 1])) + Tax(amounts[|amounts| - 1])
  {
  }

  lemma {:induction false} SameTotals(a: seq<Amounts>, b: seq<Amounts>)
    requires |a| == |b| && forall i :: 0 <= i < |a| ==> a[i].taxable == b[i].taxable && Tax(a[i]) == Tax(b[i])
    ensures Total(a).taxable == Total(b).taxable && Tax(Total(a)) == Tax(Total(b))
  {
    if a != [] {
      var n := |a| - 1;
      SameTotals(a[..n], b[..n]);
    }
  }

  /** A taxed invoice reconciles: the tax does not depend on which authority it goes to, and is within half a
      paisa a line of the exact tax; the amount payable is whole rupees within half a rupee (section 170 of
      the CGST Act). */
  lemma TotalsReconcile(lines: seq<LineItem>, asked: Option<int>)
    ensures var central, integrated := Total(AmountsOf(lines, CgstSgst, asked)), Total(AmountsOf(lines, Igst, asked));
            central.taxable == integrated.taxable && central.cgst + central.sgst == integrated.igst
            && central.igst == 0 && integrated.cgst == 0 && integrated.sgst == 0
            && Abs(10_000 * Tax(integrated) - ExactTax(AmountsOf(lines, Igst, asked), Rates(lines))) <= 5_000 * |lines|
            && Rupees(central.taxable + Tax(central)) % 100 == 0
            && -50 <= Rupees(central.taxable + Tax(central)) - (central.taxable + Tax(central)) <= 50
  {
    hide RoundHalfAwayFromZero, Taxable, Shares, Discount, LineAmounts;
    var a, b := AmountsOf(lines, CgstSgst, asked), AmountsOf(lines, Igst, asked);
    var d := Discount(asked, Sum(Grosses(lines)));
    forall i | 0 <= i < |lines|
      ensures a[i].taxable == b[i].taxable && Tax(a[i]) == Tax(b[i]) && a[i].igst == 0 && b[i].cgst == 0
              && b[i].sgst == 0
      ensures Abs(10_000 * Tax(b[i]) - ExactLineTax(b[i].taxable, Rates(lines)[i])) <= 5_000
    {
      var share := Shares(d, Grosses(lines))[i];
      LineTax(Grosses(lines)[i], Rates(lines)[i], CgstSgst, share);
      LineTax(Grosses(lines)[i], Rates(lines)[i], Igst, share);
      WhoGetsIt(Grosses(lines)[i], Rates(lines)[i], share);
    }
    SameTotals(a, b);
    OneAuthority(a, b);
    TotalTaxIsNear(b, Rates(lines));
    RupeesBounds(Total(a).taxable + Tax(Total(a)));
  }

  lemma WhoGetsIt(gross: int, rate: int, share: int)
    ensures LineAmounts(gross, rate, CgstSgst, share).igst == 0
    ensures LineAmounts(gross, rate, Igst, share).cgst == 0 && LineAmounts(gross, rate, Igst, share).sgst == 0
  {
    hide RoundHalfAwayFromZero, Taxable;
  }

  lemma {:induction false} OneAuthority(a: seq<Amounts>, b: seq<Amounts>)
    requires |a| == |b| && forall i :: 0 <= i < |a| ==> a[i].igst == 0 && b[i].cgst == 0 && b[i].sgst == 0
    ensures Total(a).igst == 0 && Total(b).cgst == 0 && Total(b).sgst == 0
  {
    if a != [] {
      OneAuthority(a[..|a| - 1], b[..|b| - 1]);
    }
  }

  /** Who is paid: an export bears no tax; central and state tax are only charged where the place of supply is
      the supplier's own state, integrated tax only where it is another. */
  lemma WhoIsPaid(supplier: Party, customer: Party, lines: seq<LineItem>, asked: Option<int>)
    ensures var t := Total(AmountsOf(lines, TaxKindFor(supplier, customer), asked));
            (IsAbroad(customer) ==> Tax(t) == 0)
            && (t.cgst != 0 || t.sgst != 0 ==>
                  !IsAbroad(customer) && PlaceOfSupply(supplier, customer) == supplier.stateCode)
            && (t.igst != 0 ==> !IsAbroad(customer) && PlaceOfSupply(supplier, customer) != supplier.stateCode)
  {
    hide PlaceOfSupply, RoundHalfAwayFromZero, Taxable, Shares, Discount, LineAmounts, Tax, Total, IsAbroad;
    var kind := TaxKindFor(supplier, customer);
    var a, central, integrated := AmountsOf(lines, kind, asked), AmountsOf(lines, CgstSgst, asked),
        AmountsOf(lines, Igst, asked);
    var d := Discount(asked, Sum(Grosses(lines)));
    forall i | 0 <= i < |lines|
      ensures central[i].igst == 0 && integrated[i].cgst == 0 && integrated[i].sgst == 0
    {
      WhoGetsIt(Grosses(lines)[i], Rates(lines)[i], Shares(d, Grosses(lines))[i]);
    }
    OneAuthority(central, integrated);
    if IsAbroad(customer) {
      forall i | 0 <= i < |lines|
        ensures Tax(a[i]) == 0 && a[i].cgst == 0 && a[i].sgst == 0
      {
        ExportLine(Grosses(lines)[i], Rates(lines)[i], Shares(d, Grosses(lines))[i]);
      }
      NoColumns(a);
    }
  }

  lemma {:induction false} TotalColumns(a: seq<Amounts>)
    ensures Total(a).taxable == Sum(Column(a, 0)) && Total(a).cgst == Sum(Column(a, 1))
    ensures Total(a).sgst == Sum(Column(a, 2)) && Total(a).igst == Sum(Column(a, 3))
  {
    if a != [] {
      var n := |a| - 1;
      TotalColumns(a[..n]);
      assert Column(a, 0)[..n] == Column(a[..n], 0) && Column(a, 1)[..n] == Column(a[..n], 1);
      assert Column(a, 2)[..n] == Column(a[..n], 2) && Column(a, 3)[..n] == Column(a[..n], 3);
    }
  }

  function Column(a: seq<Amounts>, which: nat): (s: seq<int>)
    ensures |s| == |a|
    ensures forall i :: 0 <= i < |a| ==>
              s[i] == match which case 0 => a[i].taxable case 1 => a[i].cgst case 2 => a[i].sgst case _ => a[i].igst
  {
    seq(|a|, i requires 0 <= i < |a| =>
      match which case 0 => a[i].taxable case 1 => a[i].cgst case 2 => a[i].sgst case _ => a[i].igst)
  }

  /** Where the supply is, from what is on record of the customer. */
  lemma PlaceIs(supplier: Party, customer: Party)
    ensures var place := PlaceOfSupply(supplier, customer);
            var state, country := Trim(customer.stateCode), customer.countryCode;
            if country != "" && country != "IN" then place == country
            else if state != "" then place == state
            else place == supplier.stateCode
  {
    hide Trim;
  }

  /** Who is paid, from what is on record of the customer. In India the tax is the full tax; it goes to the centre
      and the state when the customer's state is the supplier's or is not on record, and is integrated when it is
      another. Abroad there is none. */
  lemma WhoIsPaidByState(supplier: Party, customer: Party, lines: seq<LineItem>, asked: Option<int>)
    ensures var t := Total(AmountsOf(lines, TaxKindFor(supplier, customer), asked));
            var full := Tax(Total(AmountsOf(lines, Igst, asked)));
            var state, country := Trim(customer.stateCode), customer.countryCode;
            if country != "" && country != "IN" then Tax(t) == 0
            else if state == "" || state == supplier.stateCode then
              t.cgst + t.sgst == full && t.igst == 0
            else t.igst == full && t.cgst == 0 && t.sgst == 0
  {
    hide Trim, RoundHalfAwayFromZero, Taxable, Shares, Discount, LineAmounts, Total, AmountsOf, Rupees, ExactTax, Abs;
    WhoIsPaid(supplier, customer, lines, asked);
    TotalsReconcile(lines, asked);
    PlaceIs(supplier, customer);
  }

  lemma ExportLine(gross: int, rate: int, share: int)
    ensures var a := LineAmounts(gross, rate, ZeroRated, share); Tax(a) == 0 && a.cgst == 0 && a.sgst == 0
  {
    hide Taxable;
  }

  lemma {:induction false} NoColumns(a: seq<Amounts>)
    requires forall i :: 0 <= i < |a| ==> Tax(a[i]) == 0 && a[i].cgst == 0 && a[i].sgst == 0
    ensures Total(a).cgst == 0 && Total(a).sgst == 0 && Total(a).igst == 0 && Tax(Total(a)) == 0
  {
    if a != [] {
      NoColumns(a[..|a| - 1]);
      assert Tax(a[|a| - 1]) == 0;
    }
  }

  // ---------- Reversal ----------

  function Negated(s: seq<int>): (r: seq<int>)
    ensures |r| == |s| && forall i :: 0 <= i < |s| ==> r[i] == -s[i]
  {
    seq(|s|, i requires 0 <= i < |s| => -s[i])
  }

  function Opposite(a: Amounts): Amounts {
    Amounts(-a.taxable, -a.cgst, -a.sgst, -a.igst)
  }

  lemma LineReverses(gross: int, rate: int, kind: TaxKind, share: int)
    ensures LineAmounts(-gross, rate, kind, -share) == Opposite(LineAmounts(gross, rate, kind, share))
  {
    hide RoundHalfAwayFromZero, TruncDiv;
    var taxable := Taxable(gross, share);
    assert Taxable(-gross, -share) == -taxable;
    assert -taxable * rate == -(taxable * rate);
    RoundIsOdd(taxable * rate, 10_000);
    TruncIsOdd(RoundHalfAwayFromZero(taxable * rate, 10_000), 2);
  }

  lemma {:induction false} SumReverses(s: seq<int>)
    ensures Sum(Negated(s)) == -Sum(s)
  {
    if s != [] {
      SumReverses(s[..|s| - 1]);
      assert Negated(s)[..|s| - 1] == Negated(s[..|s| - 1]);
    }
  }

  lemma SharesReverse(d: int, grosses: seq<int>)
    ensures Shares(-d, Negated(grosses)) == Negated(Shares(d, grosses))
  {
    hide Proportional, Sum;
    if grosses != [] {
      var n := |grosses| - 1;
      var g := Sum(grosses);
      SumReverses(grosses);
      var others := Proportionals(d, grosses[..n], g);
      forall i | 0 <= i < n
        ensures Proportional(-d, -grosses[i], -g) == -Proportional(d, grosses[i], g)
      {
        ProportionalReverses(d, grosses[i], g);
      }
      assert Negated(grosses)[..n] == Negated(grosses[..n]);
      assert Proportionals(-d, Negated(grosses[..n]), -g) == Negated(others);
      SumReverses(others);
    }
  }

  lemma ProportionalReverses(d: int, l: int, g: int)
    ensures Proportional(-d, -l, -g) == -Proportional(d, l, g)
  {
    hide TruncDiv;
    assert -d * -l == d * l;
    if g != 0 {
      TruncIsOdd(d * l, g);
    }
  }

  lemma {:induction false} TotalReverses(a: seq<Amounts>, b: seq<Amounts>)
    requires |a| == |b| && forall i :: 0 <= i < |a| ==> b[i] == Opposite(a[i])
    ensures Total(b) == Opposite(Total(a))
  {
    if a != [] {
      TotalReverses(a[..|a| - 1], b[..|b| - 1]);
    }
  }

  function Reversed(lines: seq<LineItem>): (r: seq<LineItem>)
    ensures |r| == |lines|
    ensures forall i :: 0 <= i < |r| ==> r[i] == lines[i].(unitPriceInPaise := -lines[i].unitPriceInPaise)
  {
    seq(|lines|, i requires 0 <= i < |lines| => lines[i].(unitPriceInPaise := -lines[i].unitPriceInPaise))
  }

  lemma DiscountReverses(asked: Option<int>, gross: int)
    ensures Discount(asked, -gross) == -Discount(asked, gross)
  {
  }

  /** Negating every unit price, with the same discount, negates every amount on the document, half paise and
      rupee rounding included. */
  lemma ExactReversal(lines: seq<LineItem>, kind: TaxKind, asked: Option<int>)
    ensures var before, after := AmountsOf(lines, kind, asked), AmountsOf(Reversed(lines), kind, asked);
            (forall i :: 0 <= i < |lines| ==> after[i] == Opposite(before[i]))
            && Total(after) == Opposite(Total(before))
            && Rupees(Total(after).taxable + Tax(Total(after))) == -Rupees(Total(before).taxable + Tax(Total(before)))
    ensures Discount(asked, Sum(Grosses(Reversed(lines)))) == -Discount(asked, Sum(Grosses(lines)))
  {
    hide LineAmounts, Shares, Discount, Sum, RoundHalfAwayFromZero, Grosses, Rates, Reversed;
    var gs := Grosses(lines);
    ColumnsReverse(lines);
    var d := Discount(asked, Sum(gs));
    SumReverses(gs);
    DiscountReverses(asked, Sum(gs));
    SharesReverse(d, gs);
    var before, after := AmountsOf(lines, kind, asked), AmountsOf(Reversed(lines), kind, asked);
    forall i | 0 <= i < |lines|
      ensures after[i] == Opposite(before[i])
    {
      LineReverses(gs[i], Rates(lines)[i], kind, Shares(d, gs)[i]);
    }
    TotalReverses(before, after);
    RoundIsOdd(Total(before).taxable + Tax(Total(before)), 100);
  }

  lemma ColumnsReverse(lines: seq<LineItem>)
    ensures Grosses(Reversed(lines)) == Negated(Grosses(lines)) && Rates(Reversed(lines)) == Rates(lines)
  {
    forall i | 0 <= i < |lines|
      ensures Grosses(Reversed(lines))[i] == -Grosses(lines)[i]
    {
      assert -lines[i].unitPriceInPaise * lines[i].quantity == -(lines[i].unitPriceInPaise * lines[i].quantity);
    }
  }
}
