/**
 Civil dates from day numbers: the C server's subtraction loops and the Zig server's
 closed form, both measured against the Gregorian calendar itself.
 */
module Civil {

  /** A date; months count from 1 as in the printed timestamp. */
  datatype Date = Date(year: int, month: int, day: int)

  predicate IsLeap(y: int) {
    (y % 4 == 0 && y % 100 != 0) || y % 400 == 0
  }

  function YearLen(y: int): (n: nat) {
    if IsLeap(y) then 366 else 365
  }

  const DAYS_IN_MONTH: seq<nat> := [31, 28, 31, 30, 31, 30, 31, 31, 30, 31, 30, 31]

  /** Days in month `m`, counted from 0. */
  function MonthLen(y: int, m: nat): (n: nat)
    requires m < 12
  {
    if m == 1 && IsLeap(y) then 29 else DAYS_IN_MONTH[m]
  }

  /** Days from 1 January 1970 to 1 January of year `y`, for years before 1970 too. */
  function YearStart(y: int): (n: int) {
    365 * (y - 1970) + (y - 1) / 4 - (y - 1) / 100 + (y - 1) / 400 - 477
  }

  /** How a floor quotient moves by one, for the three leap-year divisors. */
  lemma QuotientSteps(y: int)
    ensures y / 4 == (y - 1) / 4 + if y % 4 == 0 then 1 else 0
    ensures y / 100 == (y - 1) / 100 + if y % 100 == 0 then 1 else 0
    ensures y / 400 == (y - 1) / 400 + if y % 400 == 0 then 1 else 0
  {
  }

  lemma DivisorsNest(y: int)
    ensures y % 400 == 0 ==> y % 100 == 0
    ensures y % 100 == 0 ==> y % 4 == 0
  {
  }

  /** `YearStart` is the running total of year lengths, anchored at the epoch. */
  lemma YearStartSteps(y: int)
    ensures YearStart(1970) == 0
    ensures YearStart(y + 1) == YearStart(y) + YearLen(y)
  {
    QuotientSteps(y);
    DivisorsNest(y);
  }

  /** Days from 1 January to the first of month `m`, counted from 0. */
  function MonthStart(y: int, m: nat): (n: nat)
    requires m <= 12
  {
    if m == 0 then 0 else MonthStart(y, m - 1) + MonthLen(y, m - 1)
  }

  /** `d` is the calendar date of day number `days`. */
  predicate Denotes(d: Date, days: int) {
    && 1 <= d.month <= 12
    && 1 <= d.day <= MonthLen(d.year, d.month - 1)
    && days == YearStart(d.year) + MonthStart(d.year, d.month - 1) + d.day - 1
  }

  lemma MonthStarts(y: int)
    ensures var l := if IsLeap(y) then 1 else 0;
      && MonthStart(y, 0) == 0 && MonthStart(y, 1) == 31 && MonthStart(y, 2) == 59 + l
      && MonthStart(y, 3) == 90 + l && MonthStart(y, 4) == 120 + l && MonthStart(y, 5) == 151 + l
      && MonthStart(y, 6) == 181 + l && MonthStart(y, 7) == 212 + l && MonthStart(y, 8) == 243 + l
      && MonthStart(y, 9) == 273 + l && MonthStart(y, 10) == 304 + l && MonthStart(y, 11) == 334 + l
      && MonthStart(y, 12) == YearLen(y)
  {
    assert MonthStart(y, 3) == MonthStart(y, 2) + 31;
    assert MonthStart(y, 5) == MonthStart(y, 4) + 31 == MonthStart(y, 3) + 61;
    assert MonthStart(y, 7) == MonthStart(y, 6) + 31 == MonthStart(y, 5) + 61;
    assert MonthStart(y, 9) == MonthStart(y, 8) + 30 == MonthStart(y, 7) + 61;
    assert MonthStart(y, 11) == MonthStart(y, 10) + 30 == MonthStart(y, 9) + 61;
  }

  lemma YearLenIsSum(y: int)
    ensures MonthStart(y, 12) == YearLen(y)
  {
    MonthStarts(y);
  }

  lemma {:induction false} YearStartMonotone(y: int, z: int)
    requires y < z
    ensures YearStart(y) + YearLen(y) <= YearStart(z)
    decreases z - y
  {
    YearStartSteps(y);
    if y + 1 < z {
      YearStartMonotone(y + 1, z);
    }
  }

  lemma {:induction false} MonthStartMonotone(y: int, m: nat, n: nat)
    requires m < n <= 12
    ensures MonthStart(y, m) + MonthLen(y, m) <= MonthStart(y, n)
    decreases n - m
  {
    if m + 1 < n {
      MonthStartMonotone(y, m, n - 1);
    }
  }

  predicate Before(a: Date, b: Date) {
    a.year < b.year || (a.year == b.year && (a.month < b.month || (a.month == b.month && a.day < b.day)))
  }

  /** Later dates have larger day numbers, so a day number has at most one date. */
  lemma DatesAreOrdered(a: Date, b: Date, i: int, j: int)
    requires Denotes(a, i) && Denotes(b, j)
    ensures Before(a, b) <==> i < j
    ensures a == b <==> i == j
  {
    BeforeImpliesLess(a, b, i, j);
    BeforeImpliesLess(b, a, j, i);
  }

  lemma BeforeImpliesLess(a: Date, b: Date, i: int, j: int)
    requires Denotes(a, i) && Denotes(b, j)
    ensures Before(a, b) ==> i < j
  {
    if a.year < b.year {
      YearStartMonotone(a.year, b.year);
      MonthStartMonotone(a.year, a.month - 1, 12);
      YearLenIsSum(a.year);
    } else if a.year == b.year && a.month < b.month {
      MonthStartMonotone(a.year, a.month - 1, b.month - 1);
    }
  }

  /**
   The loops of the C formatter. The day count is a signed `int` there, so a negative one is
   possible: both loops then stop at once.
   */
  method FromDaysByLoops(t: int) returns (d: Date)
    ensures t >= 0 ==> Denotes(d, t)
    ensures t < 0 ==> d == Date(1970, 1, t + 1)
  {
    var days := t;
    var y := 1970;
    YearStartSteps(y);
    while days >= YearLen(y)
      invariant 1970 <= y && t == YearStart(y) + days
      invariant if t < 0 then y == 1970 else 0 <= days
      decreases days
    {
      YearStartSteps(y);
      days := days - YearLen(y);
      y := y + 1;
    }
    MonthStarts(y);
    var m := 0;
    while m < 12 && days >= MonthLen(y, m)
      invariant 0 <= m <= 12
      invariant if t < 0 then m == 0 && y == 1970 else 0 <= days
      invariant t == YearStart(y) + MonthStart(y, m) + days < YearStart(y) + YearLen(y)
    {
      days := days - MonthLen(y, m);
      m := m + 1;
    }
    d := Date(y, m + 1, days + 1);
  }

  /** Year of an era from the day of the era. */
  function YearOfEra(doe: nat): (yoe: int) {
    (doe - doe / 1460 + doe / 36524 - doe / 146096) / 365
  }

  /** Month and day from the day of a year that starts on 1 March of year `y`. */
  function FromMarchYear(y: int, doy: int): (d: Date) {
    var mp := (5 * doy + 2) / 153;
    var day := doy - (153 * mp + 2) / 5 + 1;
    var month := if mp < 10 then mp + 3 else mp - 9;
    Date(y + (if month <= 2 then 1 else 0), month, day)
  }

  /** The Zig server's civil-from-days arithmetic; `/` is floor division for these divisors. */
  function FromDaysClosedForm(days: int): (d: Date) {
    var z := days + 719468;
    var era := z / 146097;
    var doe := z - era * 146097;
    var yoe := YearOfEra(doe);
    var doy := doe - (365 * yoe + yoe / 4 - yoe / 100);
    FromMarchYear(yoe + era * 400, doy)
  }

  /** First day of the March-based year `n` of an era. */
  function EraYearStart(n: nat): (d: nat) {
    365 * n + n / 4 - n / 100 + n / 400
  }

  /** A day of the era in mixed radix: centuries, four-year cycles, years, days. */
  lemma EraDigits(doe: nat) returns (c: nat, q: nat, k: nat, s: nat)
    requires doe < 146097
    ensures doe == 36524 * c + 1461 * q + 365 * k + s
    ensures c <= 3 && q <= 24 && k <= 3 && s <= 365
    ensures s == 365 ==> k == 3 && (q == 24 ==> c == 3)
    ensures doe / 36524 - doe / 146096 == c
  {
    c := if doe == 146096 then 3 else doe / 36524;
    var rc := doe - 36524 * c;
    q := rc / 1461;
    var rq := rc - 1461 * q;
    k := if rq == 1460 then 3 else rq / 365;
    s := rq - 365 * k;
  }

  /** The year-of-era formula picks the year whose span contains the day. */
  lemma YearOfEraSpan(doe: nat)
    requires doe < 146097
    ensures 0 <= YearOfEra(doe) < 400
    ensures EraYearStart(YearOfEra(doe)) <= doe < EraYearStart(YearOfEra(doe) + 1)
  {
    var c, q, k, s := EraDigits(doe);
    var w := 24 * c + q + 365 * k + s;
    assert doe / 1460 == 25 * c + q + w / 1460 by {
      assert doe == 1460 * (25 * c + q) + w;
    }
    var y := 100 * c + 4 * q + k;
    assert YearOfEra(doe) == y by {
      assert doe - doe / 1460 + doe / 36524 - doe / 146096 == 365 * y + (s - w / 1460);
      assert 0 <= s - w / 1460 < 365;
    }
    EraYearSpan(c, q, k, y);
  }

  lemma EraYearSpan(c: nat, q: nat, k: nat, y: nat)
    requires c <= 3 && q <= 24 && k <= 3 && y == 100 * c + 4 * q + k
    ensures EraYearStart(y) == 36524 * c + 1461 * q + 365 * k
    ensures EraYearStart(y + 1) == EraYearStart(y) + if k == 3 && (q == 24 ==> c == 3) then 366 else 365
  {
    assert y / 4 == 25 * c + q && y / 100 == c && y / 400 == 0;
    assert (y + 1) / 4 == 25 * c + q + if k == 3 then 1 else 0;
    assert (y + 1) / 100 == c + if k == 3 && q == 24 then 1 else 0;
    assert (y + 1) / 400 == if k == 3 && q == 24 && c == 3 then 1 else 0;
  }

  /** Day of a March-based year on which its month `mp` (0 is March) begins. */
  function MarchMonthStart(mp: nat): (d: nat) {
    (153 * mp + 2) / 5
  }

  /** The month formula picks the month whose span contains the day. */
  lemma MonthOfYear(doy: nat)
    requires doy <= 365
    ensures var mp := (5 * doy + 2) / 153;
      0 <= mp <= 11 && MarchMonthStart(mp) <= doy < MarchMonthStart(mp + 1)
  {
  }

  /** The `153` rule reproduces the month lengths, March to December and then January and February. */
  lemma MarchMonths(y: int, mp: nat)
    requires mp <= 11
    ensures mp < 10 ==>
      && MonthStart(y, mp + 2) == MonthStart(y, 2) + MarchMonthStart(mp)
      && MonthLen(y, mp + 2) == MarchMonthStart(mp + 1) - MarchMonthStart(mp)
    ensures mp >= 10 ==> MonthStart(y, mp - 10) == MarchMonthStart(mp) - 306
    ensures mp == 10 ==> MonthLen(y, 0) == MarchMonthStart(11) - MarchMonthStart(10)
  {
    MonthStarts(y);
  }

  /** 1 March of year `400 * era + yoe`, counted in the closed form's shifted days. */
  lemma MarchFirst(era: int, yoe: nat)
    requires yoe < 400
    ensures var y := yoe + era * 400;
      && YearStart(y) + MonthStart(y, 2) + 719468 == era * 146097 + EraYearStart(yoe)
      && EraYearStart(yoe + 1) - EraYearStart(yoe) == YearLen(y + 1)
  {
    var y := yoe + era * 400;
    MonthStarts(y);
    YearStartSteps(y);
    YearStartSteps(y + 1);
    assert y / 4 == 100 * era + yoe / 4 && y / 100 == 4 * era + yoe / 100 && y / 400 == era + yoe / 400;
    assert (y + 1) / 4 == 100 * era + (yoe + 1) / 4 && (y + 1) / 100 == 4 * era + (yoe + 1) / 100
           && (y + 1) / 400 == era + (yoe + 1) / 400;
  }

  lemma FromMarchYearCorrect(y: int, doy: nat)
    requires doy < 365 || (doy == 365 && IsLeap(y + 1))
    ensures Denotes(FromMarchYear(y, doy), YearStart(y) + MonthStart(y, 2) + doy)
  {
    MonthOfYear(doy);
    var mp: nat := (5 * doy + 2) / 153;
    MonthStarts(y);
    YearStartSteps(y);
    MarchMonths(y, mp);
    MarchMonths(y + 1, mp);
  }

  lemma SameDay(d: Date, i: int, j: int)
    ensures i == j && Denotes(d, i) ==> Denotes(d, j)
  {
  }

  lemma EraDate(days: int, era: int, doe: nat, yoe: nat)
    requires days + 719468 == era * 146097 + doe
    requires yoe < 400 && EraYearStart(yoe) <= doe < EraYearStart(yoe + 1)
    ensures Denotes(FromMarchYear(yoe + era * 400, doe - EraYearStart(yoe)), days)
  {
    var y, doy: nat := yoe + era * 400, doe - EraYearStart(yoe);
    assert doy < 365 || (doy == 365 && IsLeap(y + 1)) by {
      MarchFirst(era, yoe);
    }
    assert days == YearStart(y) + MonthStart(y, 2) + doy by {
      MarchFirst(era, yoe);
    }
    FromMarchYearCorrect(y, doy);
    SameDay(FromMarchYear(y, doy), YearStart(y) + MonthStart(y, 2) + doy, days);
  }

  lemma ClosedFormParts(days: int) returns (era: int, doe: nat, yoe: nat)
    ensures days + 719468 == era * 146097 + doe
    ensures yoe < 400 && EraYearStart(yoe) <= doe < EraYearStart(yoe + 1)
    ensures FromDaysClosedForm(days) == FromMarchYear(yoe + era * 400, doe - EraYearStart(yoe))
  {
    var z := days + 719468;
    era := z / 146097;
    doe := z - era * 146097;
    YearOfEraSpan(doe);
    yoe := YearOfEra(doe);
    assert yoe / 400 == 0;
  }

  /** The closed form yields the calendar date of every day, before the epoch as well. */
  lemma ClosedFormCorrect(days: int)
    ensures Denotes(FromDaysClosedForm(days), days)
  {
    var era, doe, yoe := ClosedFormParts(days);
    EraDate(days, era, doe, yoe);
  }

  /** The calendar date of a day number. */
  function DateOf(days: int): (d: Date)
    ensures Denotes(d, days)
    ensures forall e :: Denotes(e, days) ==> e == d
  {
    ClosedFormCorrect(days);
    assert forall e :: Denotes(e, days) ==> e == FromDaysClosedForm(days) by {
      forall e | Denotes(e, days) ensures e == FromDaysClosedForm(days) {
        DatesAreOrdered(e, FromDaysClosedForm(days), days, days);
      }
    }
    FromDaysClosedForm(days)
  }
}
