/**
 The calendar of billing periods (backend/src/billing/billing-period.ts).

 A date is a time value: milliseconds since 1970-01-01T00:00Z, as ECMA-262 section 21.4.1 defines it.
 Day numbers and civil fields follow that section. Months are counted from year 0, so that month
 `month` (0 to 11) of year `year` has the month number `12 * year + month` and adding months is addition.
 */
module Calendar {
  import opened Numbers

  const MS_PER_DAY := 24 * 60 * 60 * 1000

  // ---------- Years ----------

  /** The day number of the first day of a year. */
  function DayFromYear(y: int): int {
    365 * (y - 1970) + (y - 1969) / 4 - (y - 1901) / 100 + (y - 1601) / 400
  }

  predicate IsLeap(y: int) {
    y % 4 == 0 && (y % 100 != 0 || y % 400 == 0)
  }

  function YearLength(y: int): int {
    if IsLeap(y) then 366 else 365
  }

  lemma QuotientIsUnique(a: int, b: int, q: int, r: int)
    requires 0 <= r < b && a == b * q + r
    ensures a / b == q && a % b == r
  {
    var d := a / b - q;
    assert b * d == r - a % b;
    assert d >= 1 ==> b * d >= b;
    assert d <= -1 ==> b * d <= -b;
  }

  /** A quotient rounded down steps where its divisor divides; `c` is a multiple of the divisor. */
  lemma FloorStep(y: int, b: int, c: int)
    requires b > 1
    ensures (y - b * c) / b == (y - b * c - 1) / b + if y % b == 0 then 1 else 0
  {
    var q, r := y / b, y % b;
    assert y - b * c == b * (q - c) + r;
    QuotientIsUnique(y - b * c, b, q - c, r);
    if r == 0 {
      assert y - b * c - 1 == b * (q - c - 1) + (b - 1);
      QuotientIsUnique(y - b * c - 1, b, q - c - 1, b - 1);
    } else {
      QuotientIsUnique(y - b * c - 1, b, q - c, r - 1);
    }
  }

  lemma MultiplesOfMultiples(y: int)
    ensures y % 400 == 0 ==> y % 100 == 0
    ensures y % 100 == 0 ==> y % 4 == 0
  {
    if y % 400 == 0 {
      QuotientIsUnique(y, 100, 4 * (y / 400), 0);
    }
    if y % 100 == 0 {
      QuotientIsUnique(y, 4, 25 * (y / 100), 0);
    }
  }

  lemma DayFromNextYear(y: int)
    ensures DayFromYear(y + 1) == DayFromYear(y) + YearLength(y)
  {
    FloorStep(y, 4, 492);
    FloorStep(y, 100, 19);
    FloorStep(y, 400, 4);
    MultiplesOfMultiples(y);
  }

  lemma {:induction false} YearsAreOrdered(y1: int, y2: int)
    requires y1 <= y2
    ensures DayFromYear(y1) + 365 * (y2 - y1) <= DayFromYear(y2)
    decreases y2 - y1
  {
    hide DayFromYear;
    if y1 < y2 {
      YearsAreOrdered(y1, y2 - 1);
      DayFromNextYear(y2 - 1);
    }
  }

  /** The first year not before `y` that ends after day `n`. */
  function YearSearch(y: int, n: int): (r: int)
    requires DayFromYear(y) <= n
    ensures DayFromYear(r) <= n < DayFromYear(r + 1)
    decreases n - DayFromYear(y)
  {
    DayFromNextYear(y);
    if n < DayFromYear(y + 1) then y else YearSearch(y + 1, n)
  }

  lemma YearGuess(n: int)
    ensures DayFromYear(1970 + if n >= 0 then n / 366 else n / 365) <= n
  {
    var k := if n >= 0 then n / 366 else n / 365;
    if n >= 0 {
      assert (k + 1) / 4 - (k + 69) / 100 + (k + 369) / 400 <= k;
    } else {
      assert (k + 1) / 4 - (k + 69) / 100 + (k + 369) / 400 <= 0;
    }
  }

  /** The year day `n` falls in. */
  function YearFromDay(n: int): (y: int)
    ensures DayFromYear(y) <= n < DayFromYear(y + 1)
  {
    YearGuess(n);
    YearSearch(1970 + if n >= 0 then n / 366 else n / 365, n)
  }

  // ---------- Months ----------

  /** Days of a year before its month `m`. */
  function DaysBeforeMonth(leap: bool, m: int): int
    requires 0 <= m < 12
  {
    (match m
     case 0 => 0 case 1 => 31 case 2 => 59 case 3 => 90 case 4 => 120 case 5 => 151 case 6 => 181
     case 7 => 212 case 8 => 243 case 9 => 273 case 10 => 304 case _ => 334)
    + if leap && m >= 2 then 1 else 0
  }

  /** The day number of the first day of a month. */
  function MonthStart(month: int): int {
    DayFromYear(month / 12) + DaysBeforeMonth(IsLeap(month / 12), month % 12)
  }

  function MonthLength(month: int): (n: int)
    ensures 28 <= n <= 31
  {
    var m := month % 12;
    if m == 1 then (if IsLeap(month / 12) then 29 else 28)
    else if m == 3 || m == 5 || m == 8 || m == 10 then 30
    else 31
  }

  lemma NextMonthStart(month: int)
    ensures MonthStart(month + 1) == MonthStart(month) + MonthLength(month)
  {
    if month % 12 == 11 {
      assert (month + 1) / 12 == month / 12 + 1 && (month + 1) % 12 == 0;
      DayFromNextYear(month / 12);
    } else {
      assert (month + 1) / 12 == month / 12 && (month + 1) % 12 == month % 12 + 1;
    }
  }

  lemma {:induction false} MonthsAreOrdered(m1: int, m2: int)
    requires m1 <= m2
    ensures MonthStart(m1) + 28 * (m2 - m1) <= MonthStart(m2)
    decreases m2 - m1
  {
    hide DayFromYear, DaysBeforeMonth, MonthStart, MonthLength;
    if m1 < m2 {
      MonthsAreOrdered(m1, m2 - 1);
      NextMonthStart(m2 - 1);
    }
  }

  lemma JanuaryStart(year: int)
    ensures MonthStart(12 * year) == DayFromYear(year)
  {
    hide DayFromYear;
    QuotientIsUnique(12 * year, 12, year, 0);
  }

  function MonthSearch(m: int, n: int): (r: int)
    requires MonthStart(m) <= n
    ensures MonthStart(r) <= n < MonthStart(r + 1)
    decreases n - MonthStart(m)
  {
    hide DayFromYear, DaysBeforeMonth, MonthStart;
    NextMonthStart(m);
    if n < MonthStart(m + 1) then m else MonthSearch(m + 1, n)
  }

  /** The month number of day `n`. */
  function MonthFromDay(n: int): (m: int)
    ensures MonthStart(m) <= n < MonthStart(m + 1)
  {
    hide DayFromYear, DaysBeforeMonth, MonthStart, YearFromDay;
    JanuaryStart(YearFromDay(n));
    MonthSearch(12 * YearFromDay(n), n)
  }

  lemma MonthIsUnique(m: int, n: int)
    requires MonthStart(m) <= n < MonthStart(m + 1)
    ensures MonthFromDay(n) == m
  {
    hide DayFromYear, DaysBeforeMonth, MonthStart;
    var r := MonthFromDay(n);
    if r < m {
      MonthsAreOrdered(r + 1, m);
    } else if m < r {
      MonthsAreOrdered(m + 1, r);
    }
  }

  lemma YearIsMonthOverTwelve(n: int)
    ensures YearFromDay(n) == MonthFromDay(n) / 12
  {
    hide DayFromYear, DaysBeforeMonth, MonthStart;
    var m, y := MonthFromDay(n), YearFromDay(n);
    JanuaryStart(y);
    JanuaryStart(y + 1);
    if m < 12 * y {
      MonthsAreOrdered(m + 1, 12 * y);
    } else if m >= 12 * (y + 1) {
      MonthsAreOrdered(12 * (y + 1), m);
    }
  }

  // ---------- The fields of a time value ----------

  function Day(t: int): int { t / MS_PER_DAY }

  function TimeInDay(t: int): int { t % MS_PER_DAY }

  /** Month number of a time value: 12 * UTC year + UTC month. */
  function MonthOf(t: int): int { MonthFromDay(Day(t)) }

  function UtcFullYear(t: int): int { YearFromDay(Day(t)) }

  function UtcMonth(t: int): int { MonthOf(t) - 12 * UtcFullYear(t) }

  function UtcDate(t: int): (d: int)
    ensures 1 <= d <= MonthLength(MonthOf(t))
  {
    NextMonthStart(MonthOf(t));
    Day(t) - MonthStart(MonthOf(t)) + 1
  }

  /** `Date.UTC` takes a year from 0 to 99 as one of the twentieth century. */
  function MakeFullYear(year: int): int {
    if 0 <= year <= 99 then 1900 + year else year
  }

  /** `Date.UTC(year, month, date, ...)`, the time of day given as one number. */
  function Utc(year: int, month: int, date: int, timeInDay: int): int {
    (MonthStart(12 * MakeFullYear(year) + month) + date - 1) * MS_PER_DAY + timeInDay
  }

  lemma FieldsOf(day: int, timeInDay: int)
    requires 0 <= timeInDay < MS_PER_DAY
    ensures Day(day * MS_PER_DAY + timeInDay) == day
    ensures TimeInDay(day * MS_PER_DAY + timeInDay) == timeInDay
  {
  }

  /** Reading the fields of a date and putting them together again gives the date back, and
      conversely; every year but the hundred that `Date.UTC` re-reads. */
  lemma FieldsRoundTrip(t: int, month: int, date: int, timeInDay: int)
    requires 1 <= date <= MonthLength(month) && 0 <= timeInDay < MS_PER_DAY
    ensures !(0 <= UtcFullYear(t) <= 99) ==> Utc(UtcFullYear(t), UtcMonth(t), UtcDate(t), TimeInDay(t)) == t
    ensures !(0 <= month / 12 <= 99) ==>
              var u := Utc(month / 12, month % 12, date, timeInDay);
              MonthOf(u) == month && UtcFullYear(u) == month / 12 && UtcMonth(u) == month % 12
              && UtcDate(u) == date && TimeInDay(u) == timeInDay
  {
    hide DayFromYear, DaysBeforeMonth, MonthStart, MonthLength, MonthFromDay, YearFromDay;
    if !(0 <= month / 12 <= 99) {
      var n := MonthStart(month) + date - 1;
      NextMonthStart(month);
      MonthIsUnique(month, n);
      YearIsMonthOverTwelve(n);
      assert 12 * (month / 12) + month % 12 == month;
      FieldsOf(n, timeInDay);
    }
  }

  lemma FirstMonth()
    ensures MonthStart(12 * 1970) == 0 && MonthLength(12 * 1970) == 31
    ensures DayFromYear(1970) == 0 && DayFromYear(1971) == 365
  {
  }

  /** Time values count from the first of January 1970, in days of 24 hours. */
  lemma Epoch(t: int)
    requires 0 <= t < 31 * 86_400_000
    ensures UtcFullYear(t) == 1970 && UtcMonth(t) == 0 && UtcDate(t) == t / 86_400_000 + 1
    ensures TimeInDay(t) == t % 86_400_000
  {
    hide DayFromYear, DaysBeforeMonth, MonthStart, MonthLength;
    FirstMonth();
    NextMonthStart(12 * 1970);
    MonthIsUnique(12 * 1970, Day(t));
    YearIsMonthOverTwelve(Day(t));
  }

  lemma FieldsOfMonth(t: int)
    ensures UtcFullYear(t) == MonthOf(t) / 12 && UtcMonth(t) == MonthOf(t) % 12
  {
    hide DayFromYear, DaysBeforeMonth, MonthStart, MonthLength, MonthFromDay, YearFromDay;
    YearIsMonthOverTwelve(Day(t));
  }

  // ---------- Adding months ----------

  /** JavaScript's `%`, which keeps the sign of the dividend. */
  function JsRemainder(a: int, b: int): int
    requires b > 0
  {
    if a >= 0 then a % b else -((-a) % b)
  }

  function DaysInMonth(year: int, month: int): int {
    UtcDate(Utc(year, month + 1, 0, 0))
  }

  function AddMonths(t: int, months: int): int {
    var targetMonth := UtcMonth(t) + months;
    var targetYear := UtcFullYear(t) + targetMonth / 12;
    var normalisedMonth := JsRemainder(JsRemainder(targetMonth, 12) + 12, 12);
    Utc(targetYear, normalisedMonth,
        Min(UtcDate(t), DaysInMonth(targetYear, normalisedMonth)), TimeInDay(t))
  }

  lemma DaysInMonthIsLength(year: int, month: int)
    ensures DaysInMonth(year, month) == MonthLength(12 * MakeFullYear(year) + month)
  {
    hide DayFromYear, DaysBeforeMonth, MonthStart, MonthLength;
    var m := 12 * MakeFullYear(year) + month;
    NextMonthStart(m);
    MonthIsUnique(m, MonthStart(m + 1) - 1);
    FieldsOf(MonthStart(m + 1) - 1, 0);
  }

  /** What `AddMonths` is meant to be: that day of month `month`, or its last day. */
  function Clamped(month: int, date: int, timeInDay: int): int {
    (MonthStart(month) + Min(date, MonthLength(month)) - 1) * MS_PER_DAY + timeInDay
  }

  lemma ClampedFields(month: int, date: int, timeInDay: int)
    requires 1 <= date <= 31 && 0 <= timeInDay < MS_PER_DAY
    ensures var u := Clamped(month, date, timeInDay);
            MonthOf(u) == month && UtcDate(u) == Min(date, MonthLength(month)) && TimeInDay(u) == timeInDay
  {
    hide DayFromYear, DaysBeforeMonth, MonthStart, MonthLength;
    var n := MonthStart(month) + Min(date, MonthLength(month)) - 1;
    NextMonthStart(month);
    MonthIsUnique(month, n);
    FieldsOf(n, timeInDay);
  }

  /** The wrap-around of the code computes the target month by its number. */
  lemma TargetMonth(year: int, month: int, months: int)
    ensures var target := month + months;
            12 * (year + target / 12) + JsRemainder(JsRemainder(target, 12) + 12, 12) == 12 * year + month + months
  {
  }

  lemma AddMonthsIsClamped(t: int, months: int)
    ensures var m := MonthOf(t) + months;
            AddMonths(t, months) == Clamped(if 0 <= m / 12 <= 99 then m + 12 * 1900 else m, UtcDate(t), TimeInDay(t))
  {
    hide DayFromYear, DaysBeforeMonth, MonthStart, MonthLength, MonthOf, UtcFullYear, DaysInMonth, UtcDate,
      JsRemainder;
    var target := UtcMonth(t) + months;
    var year := UtcFullYear(t) + target / 12;
    var wrapped := JsRemainder(JsRemainder(target, 12) + 12, 12);
    TargetMonth(UtcFullYear(t), UtcMonth(t), months);
    DaysInMonthIsLength(year, wrapped);
    assert 12 * year + wrapped == MonthOf(t) + months;
    WrappedIsMonth(target);
    assert (MonthOf(t) + months) / 12 == year;
  }

  lemma WrappedIsMonth(target: int)
    ensures 0 <= JsRemainder(JsRemainder(target, 12) + 12, 12) < 12
  {
  }

  /** `AddMonths` lands in the exact target month, for positive and negative counts, unless the target
      year is one of the hundred that `Date.UTC` re-reads; there it never does. It always keeps the time
      of day, and where it lands right the day is the date, or the last day of a shorter month. */
  lemma AddMonthsLands(t: int, months: int)
    ensures MonthOf(AddMonths(t, months)) == MonthOf(t) + months
            <==> !(0 <= (MonthOf(t) + months) / 12 <= 99)
    ensures TimeInDay(AddMonths(t, months)) == TimeInDay(t)
    ensures !(0 <= (MonthOf(t) + months) / 12 <= 99) ==>
              UtcDate(AddMonths(t, months)) == Min(UtcDate(t), MonthLength(MonthOf(t) + months))
  {
    hide DayFromYear, DaysBeforeMonth, MonthStart, MonthLength;
    var m := MonthOf(t) + months;
    AddMonthsIsClamped(t, months);
    ClampedFields(if 0 <= m / 12 <= 99 then m + 12 * 1900 else m, UtcDate(t), TimeInDay(t));
  }

  /** From here on dates are those of the year 100 and later. */
  predicate Supported(t: int) {
    UtcFullYear(t) >= 100
  }

  predicate MonthSupported(month: int) {
    month >= 1200
  }

  lemma SupportedMonth(t: int)
    ensures Supported(t) <==> MonthSupported(MonthOf(t))
  {
    hide DayFromYear, DaysBeforeMonth, MonthStart, MonthLength;
    YearIsMonthOverTwelve(Day(t));
  }

  lemma AddMonthsOfSupported(t: int, months: int)
    requires MonthSupported(MonthOf(t) + months)
    ensures AddMonths(t, months) == Clamped(MonthOf(t) + months, UtcDate(t), TimeInDay(t))
    ensures MonthOf(AddMonths(t, months)) == MonthOf(t) + months
    ensures Supported(AddMonths(t, months))
  {
    hide DayFromYear, MonthStart, MonthLength, AddMonths;
    AddMonthsIsClamped(t, months);
    AddMonthsLands(t, months);
    SupportedMonth(AddMonths(t, months));
  }

  lemma LaterMonthIsLater(t1: int, t2: int)
    requires MonthOf(t1) < MonthOf(t2)
    ensures t1 < t2
  {
    hide DayFromYear, DaysBeforeMonth, MonthStart;
    MonthsAreOrdered(MonthOf(t1) + 1, MonthOf(t2));
    assert Day(t1) < Day(t2);
  }

  /** Adding more months gives a later date, whatever the day clamps to. */
  lemma AddMonthsIncreases(t: int, n1: int, n2: int)
    requires n1 < n2 && MonthSupported(MonthOf(t) + n1)
    ensures AddMonths(t, n1) < AddMonths(t, n2)
  {
    hide DayFromYear, MonthStart, MonthLength, AddMonths;
    AddMonthsOfSupported(t, n1);
    AddMonthsOfSupported(t, n2);
    LaterMonthIsLater(AddMonths(t, n1), AddMonths(t, n2));
  }

  /** Adding in two steps reaches the month of one step, never a later day, and the same day exactly
      when the first step kept the date or the last month is no longer than the one between. */
  lemma AddMonthsInTwoSteps(t: int, a: int, b: int)
    requires MonthSupported(MonthOf(t) + a) && MonthSupported(MonthOf(t) + a + b)
    ensures MonthOf(AddMonths(AddMonths(t, a), b)) == MonthOf(AddMonths(t, a + b))
    ensures AddMonths(AddMonths(t, a), b) <= AddMonths(t, a + b)
    ensures AddMonths(AddMonths(t, a), b) == AddMonths(t, a + b) <==>
              (UtcDate(t) <= MonthLength(MonthOf(t) + a)
               || MonthLength(MonthOf(t) + a + b) <= MonthLength(MonthOf(t) + a))
    ensures UtcDate(t) <= 28 ==> AddMonths(AddMonths(t, a), b) == AddMonths(t, a + b)
  {
    hide DayFromYear, MonthStart, MonthLength, AddMonths, MonthFromDay, YearFromDay, Supported;
    AddMonthsOfSupported(t, a);
    AddMonthsLands(t, a);
    AddMonthsOfSupported(AddMonths(t, a), b);
    AddMonthsOfSupported(t, a + b);
  }

  // ---------- Anniversaries ----------

  datatype BillingCycle = Monthly | Quarterly | Yearly | Biennial | Triennial

  function MonthsInCycle(cycle: BillingCycle): (m: int)
    ensures 1 <= m <= 36
  {
    match cycle
    case Monthly => 1
    case Quarterly => 3
    case Yearly => 12
    case Biennial => 24
    case Triennial => 36
  }

  function NextRenewal(from: int, cycle: BillingCycle): int {
    AddMonths(from, MonthsInCycle(cycle))
  }

  /** The end of the k-th period of a subscription that began at `anchor`. */
  function Anniversary(anchor: int, cycle: BillingCycle, k: int): int {
    AddMonths(anchor, k * MonthsInCycle(cycle))
  }

  lemma AnniversaryMonth(anchor: int, cycle: BillingCycle, k: int)
    requires Supported(anchor) && k >= 0
    ensures MonthOf(Anniversary(anchor, cycle, k)) == MonthOf(anchor) + k * MonthsInCycle(cycle)
    ensures Supported(Anniversary(anchor, cycle, k))
  {
    hide MonthFromDay, YearFromDay, MonthLength, AddMonths;
    SupportedMonth(anchor);
    assert k * MonthsInCycle(cycle) >= 0;
    AddMonthsOfSupported(anchor, k * MonthsInCycle(cycle));
  }

  /** How long a cycle is, on the calendar: a month is the very next month, the years keep the month. */
  lemma CycleOnTheCalendar(t: int, cycle: BillingCycle)
    requires Supported(t)
    ensures var next := NextRenewal(t, cycle);
            match cycle
            case Monthly =>
              if UtcMonth(t) == 11 then UtcFullYear(next) == UtcFullYear(t) + 1 && UtcMonth(next) == 0
              else UtcFullYear(next) == UtcFullYear(t) && UtcMonth(next) == UtcMonth(t) + 1
            case Quarterly =>
              if UtcMonth(t) >= 9 then UtcFullYear(next) == UtcFullYear(t) + 1 && UtcMonth(next) == UtcMonth(t) - 9
              else UtcFullYear(next) == UtcFullYear(t) && UtcMonth(next) == UtcMonth(t) + 3
            case Yearly => UtcFullYear(next) == UtcFullYear(t) + 1 && UtcMonth(next) == UtcMonth(t)
            case Biennial => UtcFullYear(next) == UtcFullYear(t) + 2 && UtcMonth(next) == UtcMonth(t)
            case Triennial => UtcFullYear(next) == UtcFullYear(t) + 3 && UtcMonth(next) == UtcMonth(t)
  {
    hide DayFromYear, DaysBeforeMonth, MonthStart, MonthLength, MonthFromDay, YearFromDay, AddMonths, UtcFullYear,
      UtcMonth, MonthOf;
    SupportedMonth(t);
    AddMonthsOfSupported(t, MonthsInCycle(cycle));
    FieldsOfMonth(t);
    FieldsOfMonth(NextRenewal(t, cycle));
    YearsLater(MonthOf(t), 1);
    YearsLater(MonthOf(t), 2);
    YearsLater(MonthOf(t), 3);
  }

  lemma YearsLater(month: int, years: int)
    ensures (month + 12 * years) / 12 == month / 12 + years && (month + 12 * years) % 12 == month % 12
  {
  }

  /** Four quarters are the year of a yearly cycle, and so are twelve months, to the millisecond. */
  lemma CyclesAgree(anchor: int, years: int)
    ensures Anniversary(anchor, Quarterly, 4 * years) == Anniversary(anchor, Yearly, years)
    ensures Anniversary(anchor, Monthly, 12 * years) == Anniversary(anchor, Yearly, years)
    ensures Anniversary(anchor, Biennial, years) == Anniversary(anchor, Yearly, 2 * years)
    ensures Anniversary(anchor, Triennial, years) == Anniversary(anchor, Yearly, 3 * years)
  {
    hide AddMonths;
  }

  lemma AnniversariesIncrease(anchor: int, cycle: BillingCycle, j: int, k: int)
    requires Supported(anchor) && 0 <= j < k
    ensures Anniversary(anchor, cycle, j) < Anniversary(anchor, cycle, k)
  {
    hide MonthFromDay, YearFromDay, MonthLength, AddMonths;
    SupportedMonth(anchor);
    var m := MonthsInCycle(cycle);
    assert j * m >= 0;
    assert (k - j) * m > 0;
    assert k * m == j * m + (k - j) * m;
    AddMonthsIncreases(anchor, j * m, k * m);
  }

  lemma AnniversariesAreDistinct(anchor: int, cycle: BillingCycle, j: int, k: int)
    requires Supported(anchor) && 0 <= j && 0 <= k
    requires Anniversary(anchor, cycle, j) == Anniversary(anchor, cycle, k)
    ensures j == k
  {
    hide MonthFromDay, YearFromDay, MonthLength, AddMonths;
    if j < k {
      AnniversariesIncrease(anchor, cycle, j, k);
    } else if k < j {
      AnniversariesIncrease(anchor, cycle, k, j);
    }
  }

  /** `k` is the first anniversary, the start itself not counted, after `renewsAt`. */
  ghost predicate IsNextAnniversary(anchor: int, renewsAt: int, cycle: BillingCycle, k: int) {
    k >= 1
    && renewsAt < Anniversary(anchor, cycle, k)
    && forall j :: 1 <= j < k ==> Anniversary(anchor, cycle, j) <= renewsAt
  }

  /** Rounds a quotient up, as `Math.ceil` does. */
  function CeilDiv(a: int, b: int): (q: int)
    requires b > 0
    ensures (q - 1) * b < a <= q * b
  {
    -((-a) / b)
  }

  /** Whole months between two dates by their UTC year and month. */
  function ElapsedMonths(anchor: int, renewsAt: int): (e: int)
    ensures e == MonthOf(renewsAt) - MonthOf(anchor)
  {
    (UtcFullYear(renewsAt) - UtcFullYear(anchor)) * 12 + (UtcMonth(renewsAt) - UtcMonth(anchor))
  }

  function FirstGuess(anchor: int, renewsAt: int, cycle: BillingCycle): (c: int)
    ensures c >= 1
  {
    hide CeilDiv, ElapsedMonths;
    Max(1, CeilDiv(ElapsedMonths(anchor, renewsAt), MonthsInCycle(cycle)))
  }

  lemma CeilBounds(elapsed: int, m: int, q: int, c: int)
    requires m > 0 && (q - 1) * m < elapsed <= q * m && c == Max(1, q)
    ensures elapsed < (c + 1) * m
    ensures forall j :: 1 <= j < c ==> j * m < elapsed
  {
    assert (c - q) * m >= 0 && (c + 1) * m == q * m + (c - q) * m + m;
    forall j | 1 <= j < c
      ensures j * m < elapsed
    {
      assert (q - 1 - j) * m >= 0 && (q - 1) * m == j * m + (q - 1 - j) * m;
    }
  }

  lemma GuessBounds(anchor: int, renewsAt: int, cycle: BillingCycle)
    ensures var m, c := MonthsInCycle(cycle), FirstGuess(anchor, renewsAt, cycle);
            c >= 1
            && MonthOf(renewsAt) < MonthOf(anchor) + (c + 1) * m
            && forall j :: 1 <= j < c ==> MonthOf(anchor) + j * m < MonthOf(renewsAt)
  {
    hide MonthOf, MonthsInCycle, CeilDiv, ElapsedMonths;
    var m, elapsed := MonthsInCycle(cycle), ElapsedMonths(anchor, renewsAt);
    CeilBounds(elapsed, m, CeilDiv(elapsed, m), FirstGuess(anchor, renewsAt, cycle));
  }

  /** The guess is the next anniversary, or the one before it when the guess fell in the very month of
      `renewsAt` and not after it. */
  lemma GuessIsClose(anchor: int, renewsAt: int, cycle: BillingCycle)
    requires Supported(anchor)
    ensures var c := FirstGuess(anchor, renewsAt, cycle);
            IsNextAnniversary(anchor, renewsAt, cycle, if Anniversary(anchor, cycle, c) <= renewsAt then c + 1 else c)
  {
    hide MonthFromDay, YearFromDay, MonthLength, AddMonths;
    hide Anniversary, MonthOf, MonthsInCycle, FirstGuess, ElapsedMonths;
    var c := FirstGuess(anchor, renewsAt, cycle);
    GuessBounds(anchor, renewsAt, cycle);
    forall j | 1 <= j < c
      ensures Anniversary(anchor, cycle, j) < renewsAt
    {
      AnniversaryMonth(anchor, cycle, j);
      LaterMonthIsLater(Anniversary(anchor, cycle, j), renewsAt);
    }
    AnniversaryMonth(anchor, cycle, c + 1);
    LaterMonthIsLater(renewsAt, Anniversary(anchor, cycle, c + 1));
  }

  lemma NextAnniversaryIsUnique(anchor: int, renewsAt: int, cycle: BillingCycle, j: int, k: int)
    requires IsNextAnniversary(anchor, renewsAt, cycle, j)
    requires IsNextAnniversary(anchor, renewsAt, cycle, k)
    ensures j == k
  {
    hide MonthFromDay, YearFromDay, MonthLength, AddMonths;
  }

  const MAX_STEPS := 120

  /** Steps on from the k-th anniversary until one is later, at most `steps` times. */
  function SearchFrom(anchor: int, renewsAt: int, cycle: BillingCycle, k: int, steps: nat): (r: int)
    ensures r >= k
    decreases steps, renewsAt
  {
    if renewsAt < Anniversary(anchor, cycle, k) || steps == 0 then k
    else SearchFrom(anchor, renewsAt, cycle, k + 1, steps - 1)
  }

  lemma SearchIsShort(anchor: int, renewsAt: int, cycle: BillingCycle, k: int, steps: nat)
    requires steps >= 1
    requires renewsAt < Anniversary(anchor, cycle, k) || renewsAt < Anniversary(anchor, cycle, k + 1)
    ensures SearchFrom(anchor, renewsAt, cycle, k, steps)
            == if renewsAt < Anniversary(anchor, cycle, k) then k else k + 1
  {
    hide Anniversary;
  }

  lemma SearchFindsNext(anchor: int, renewsAt: int, cycle: BillingCycle)
    ensures var k := SearchFrom(anchor, renewsAt, cycle, FirstGuess(anchor, renewsAt, cycle), MAX_STEPS);
            k >= 1 && (Supported(anchor) ==> IsNextAnniversary(anchor, renewsAt, cycle, k))
  {
    hide SearchFrom, Anniversary, Supported, FirstGuess;
    if Supported(anchor) {
      GuessIsClose(anchor, renewsAt, cycle);
      SearchIsShort(anchor, renewsAt, cycle, FirstGuess(anchor, renewsAt, cycle), MAX_STEPS);
    }
  }

  /** The index of the anniversary `RenewalAfter` returns. */
  function NextIndex(anchor: int, renewsAt: int, cycle: BillingCycle): (k: int)
    ensures k >= 1
    ensures Supported(anchor) ==> IsNextAnniversary(anchor, renewsAt, cycle, k)
  {
    hide SearchFrom, Anniversary, Supported, FirstGuess;
    SearchFindsNext(anchor, renewsAt, cycle);
    SearchFrom(anchor, renewsAt, cycle, FirstGuess(anchor, renewsAt, cycle), MAX_STEPS)
  }

  lemma NextIndexIs(anchor: int, renewsAt: int, cycle: BillingCycle)
    ensures NextIndex(anchor, renewsAt, cycle)
            == SearchFrom(anchor, renewsAt, cycle, FirstGuess(anchor, renewsAt, cycle), MAX_STEPS)
  {
    hide SearchFrom, FirstGuess, Supported;
  }

  lemma SearchGoesOn(anchor: int, renewsAt: int, cycle: BillingCycle, k: int, steps: nat)
    ensures SearchFrom(anchor, renewsAt, cycle, k, steps)
            == if renewsAt < Anniversary(anchor, cycle, k) || steps == 0 then k
               else SearchFrom(anchor, renewsAt, cycle, k + 1, steps - 1)
  {
    hide Anniversary;
  }

  /** The renewal after `renewsAt`: the first anniversary of the anchor that is later. The search steps at
      most once, so its bound of 120 steps is never what ends it. */
  method RenewalAfter(anchor: int, renewsAt: int, cycle: BillingCycle) returns (next: int, guard: nat)
    ensures next == RenewalDateAfter(anchor, renewsAt, cycle)
    ensures Supported(anchor) ==> guard <= 1 && renewsAt < next
    ensures Supported(anchor) ==>
              forall k :: k >= 1 && renewsAt < Anniversary(anchor, cycle, k) ==> next <= Anniversary(anchor, cycle, k)
  {
    hide AddMonths, UtcFullYear, UtcMonth, MonthOf, MonthsInCycle, CeilDiv, NextIndex, Supported, SearchFrom;
    var months := MonthsInCycle(cycle);
    var elapsed := (UtcFullYear(renewsAt) - UtcFullYear(anchor)) * 12 + (UtcMonth(renewsAt) - UtcMonth(anchor));
    var cycles := Max(1, CeilDiv(elapsed, months));
    next := AddMonths(anchor, cycles * months);
    guard := 0;
    assert cycles == FirstGuess(anchor, renewsAt, cycle);
    NextIndexIs(anchor, renewsAt, cycle);
    if Supported(anchor) {
      GuessIsClose(anchor, renewsAt, cycle);
    }
    while next <= renewsAt && guard < MAX_STEPS
      invariant guard <= MAX_STEPS && next == Anniversary(anchor, cycle, cycles + guard)
      invariant SearchFrom(anchor, renewsAt, cycle, cycles + guard, MAX_STEPS - guard)
                == NextIndex(anchor, renewsAt, cycle)
      invariant Supported(anchor) ==>
                  guard == 0 || (guard == 1 && Anniversary(anchor, cycle, cycles) <= renewsAt < next)
      decreases MAX_STEPS - guard
    {
      SearchGoesOn(anchor, renewsAt, cycle, cycles + guard, MAX_STEPS - guard);
      guard := guard + 1;
      next := AddMonths(anchor, (cycles + guard) * months);
    }
    SearchGoesOn(anchor, renewsAt, cycle, cycles + guard, MAX_STEPS - guard);
    if Supported(anchor) {
      LeastByIndex(anchor, renewsAt, cycle, cycles + guard);
    }
  }

  lemma LeastByIndex(anchor: int, renewsAt: int, cycle: BillingCycle, k: int)
    requires Supported(anchor) && IsNextAnniversary(anchor, renewsAt, cycle, k)
    ensures forall j :: j >= 1 && renewsAt < Anniversary(anchor, cycle, j) ==>
                          Anniversary(anchor, cycle, k) <= Anniversary(anchor, cycle, j)
  {
    hide MonthFromDay, YearFromDay, MonthLength, AddMonths;
    forall j | j >= 1 && renewsAt < Anniversary(anchor, cycle, j)
      ensures Anniversary(anchor, cycle, k) <= Anniversary(anchor, cycle, j)
    {
      if k < j {
        AnniversariesIncrease(anchor, cycle, k, j);
      }
    }
  }

  /** The value of `RenewalAfter`, for specifications. */
  function RenewalDateAfter(anchor: int, renewsAt: int, cycle: BillingCycle): int {
    Anniversary(anchor, cycle, NextIndex(anchor, renewsAt, cycle))
  }

  /** From one anniversary the next renewal is the next anniversary. */
  lemma RenewalStep(anchor: int, cycle: BillingCycle, k: int)
    requires Supported(anchor) && k >= 1
    ensures NextIndex(anchor, Anniversary(anchor, cycle, k), cycle) == k + 1
    ensures RenewalDateAfter(anchor, Anniversary(anchor, cycle, k), cycle) == Anniversary(anchor, cycle, k + 1)
  {
    hide Anniversary, NextIndex, Supported;
    AnniversariesIncrease(anchor, cycle, k, k + 1);
    forall j | 1 <= j < k + 1
      ensures Anniversary(anchor, cycle, j) <= Anniversary(anchor, cycle, k)
    {
      if j < k {
        AnniversariesIncrease(anchor, cycle, j, k);
      }
    }
    NextAnniversaryIsUnique(anchor, Anniversary(anchor, cycle, k), cycle,
                            NextIndex(anchor, Anniversary(anchor, cycle, k), cycle), k + 1);
  }

  lemma FirstAnniversary(anchor: int, cycle: BillingCycle)
    ensures NextRenewal(anchor, cycle) == Anniversary(anchor, cycle, 1)
  {
    hide AddMonths, MonthsInCycle;
    assert 1 * MonthsInCycle(cycle) == MonthsInCycle(cycle);
  }

  /** The date after `n` renewals of a subscription that began at `anchor`. */
  function AfterRenewals(anchor: int, cycle: BillingCycle, n: nat): int {
    if n == 0 then NextRenewal(anchor, cycle)
    else RenewalDateAfter(anchor, AfterRenewals(anchor, cycle, n - 1), cycle)
  }

  lemma {:induction false} RenewedIsAnniversary(anchor: int, cycle: BillingCycle, n: nat)
    requires Supported(anchor)
    ensures AfterRenewals(anchor, cycle, n) == Anniversary(anchor, cycle, n + 1)
  {
    hide RenewalDateAfter, Anniversary, NextRenewal, Supported, NextIndex;
    if n == 0 {
      FirstAnniversary(anchor, cycle);
    } else {
      RenewedIsAnniversary(anchor, cycle, n - 1);
      RenewalStep(anchor, cycle, n);
    }
  }

  /** No drift: however often it is renewed, a subscription renews on an anniversary of its start, so on
      its own day in every month that has that day. */
  lemma {:induction false} NoDrift(anchor: int, cycle: BillingCycle, n: nat)
    requires Supported(anchor)
    ensures AfterRenewals(anchor, cycle, n) == Anniversary(anchor, cycle, n + 1)
    ensures UtcDate(AfterRenewals(anchor, cycle, n))
            == Min(UtcDate(anchor), MonthLength(MonthOf(anchor) + (n + 1) * MonthsInCycle(cycle)))
    ensures TimeInDay(AfterRenewals(anchor, cycle, n)) == TimeInDay(anchor)
  {
    hide MonthOf, MonthLength, MonthsInCycle, UtcDate, TimeInDay, AfterRenewals, Anniversary, Supported;
    RenewedIsAnniversary(anchor, cycle, n);
    AnniversaryFields(anchor, cycle, n + 1);
  }

  lemma AnniversaryFields(anchor: int, cycle: BillingCycle, k: int)
    requires Supported(anchor) && k >= 0
    ensures UtcDate(Anniversary(anchor, cycle, k))
            == Min(UtcDate(anchor), MonthLength(MonthOf(anchor) + k * MonthsInCycle(cycle)))
    ensures TimeInDay(Anniversary(anchor, cycle, k)) == TimeInDay(anchor)
  {
    hide AddMonths, MonthOf, MonthLength, UtcDate, TimeInDay, Supported;
    SupportedMonth(anchor);
    assert k * MonthsInCycle(cycle) >= 0;
    AddMonthsLands(anchor, k * MonthsInCycle(cycle));
  }

  // ---------- Financial years ----------

  /** The year an Indian financial year starts in; it runs from 1 April. */
  function FinancialYearFor(t: int): int {
    if UtcMonth(t) >= 3 then UtcFullYear(t) else UtcFullYear(t) - 1
  }

  /** The instant 1 April begins. */
  function FirstOfApril(year: int): int {
    MonthStart(12 * year + 3) * MS_PER_DAY
  }

  lemma FinancialYearBounds(t: int, year: int)
    ensures FinancialYearFor(t) == year <==> FirstOfApril(year) <= t < FirstOfApril(year + 1)
  {
    hide DayFromYear, DaysBeforeMonth, MonthStart, MonthLength, MonthFromDay, YearFromDay;
    var m := MonthOf(t);
    YearIsMonthOverTwelve(Day(t));
    if m < 12 * year + 3 {
      MonthsAreOrdered(m + 1, 12 * year + 3);
    } else {
      MonthsAreOrdered(12 * year + 3, m);
    }
    if m < 12 * (year + 1) + 3 {
      MonthsAreOrdered(m + 1, 12 * (year + 1) + 3);
    } else {
      MonthsAreOrdered(12 * (year + 1) + 3, m);
    }
    assert FirstOfApril(year) <= t <==> MonthStart(12 * year + 3) <= Day(t);
    assert FirstOfApril(year + 1) <= t <==> MonthStart(12 * (year + 1) + 3) <= Day(t);
  }
}
