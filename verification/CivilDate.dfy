/**
 * Dates of the proleptic Gregorian calendar and day numbers counted from 1 January 1970, as section
 * 21.4.1 of ECMA-262 relates them. `None` stands for an invalid date.
 */
module CivilDate {
  import opened Options

  /** A year, a month 1..12 and a day of the month from 1. */
  datatype Civil = Civil(year: int, month: int, day: int)

  predicate IsLeap(y: int) { y % 4 == 0 && (y % 100 != 0 || y % 400 == 0) }

  function DaysInYear(y: int): int { if IsLeap(y) then 366 else 365 }

  function DaysInMonth(y: int, month: int): (n: int)
    ensures 28 <= n <= 31
  {
    if month == 2 then (if IsLeap(y) then 29 else 28)
    else if month in {4, 6, 9, 11} then 30 else 31
  }

  /** The dates that exist, told from the month lengths alone. */
  predicate Exists(c: Civil) {
    1 <= c.month <= 12 && 1 <= c.day <= DaysInMonth(c.year, c.month)
  }

  /** Chronological order, told from the fields alone. */
  predicate Before(a: Civil, b: Civil) {
    a.year < b.year
    || (a.year == b.year && (a.month < b.month || (a.month == b.month && a.day < b.day)))
  }

  /** Day number of 1 January, told from the lengths of the years since 1970. */
  function DayFromYear(y: int): int
    decreases if y < 1970 then 1970 - y else y - 1970
  {
    if y == 1970 then 0
    else if y > 1970 then DayFromYear(y - 1) + DaysInYear(y - 1)
    else DayFromYear(y + 1) - DaysInYear(y)
  }

  /** The formula by which the standard defines it. */
  function DayFromYearFormula(y: int): int {
    365 * (y - 1970) + (y - 1969) / 4 - (y - 1901) / 100 + (y - 1601) / 400
  }

  lemma YearLength(y: int)
    ensures DayFromYear(y + 1) == DayFromYear(y) + DaysInYear(y)
  {
  }

  /** The formula of the standard counts exactly the days of the years. */
  lemma {:induction false} FormulaCountsYears(y: int)
    ensures DayFromYear(y) == DayFromYearFormula(y)
    decreases if y < 1970 then 1970 - y else y - 1970
  {
    if y > 1970 {
      FormulaCountsYears(y - 1);
      FormulaStep(y - 1);
    } else if y < 1970 {
      FormulaCountsYears(y + 1);
      FormulaStep(y);
    }
  }

  lemma FormulaStep(y: int)
    ensures DayFromYearFormula(y + 1) == DayFromYearFormula(y) + DaysInYear(y)
  {
    Fourth(y);
    Hundredth(y);
    FourHundredth(y);
    Multiples(y);
  }

  lemma Multiples(y: int)
    ensures y % 100 == 0 ==> y % 4 == 0
    ensures y % 400 == 0 ==> y % 100 == 0
  {
    if y % 100 == 0 { FourDivides(25 * (y / 100)); }
    if y % 400 == 0 { HundredDivides(4 * (y / 400)); }
  }

  lemma FourDivides(q: int)
    ensures (4 * q) % 4 == 0
  {
  }

  lemma HundredDivides(q: int)
    ensures (100 * q) % 100 == 0
  {
  }

  /** A quotient grows by one when the next number is a multiple of the divisor. */
  lemma Fourth(y: int)
    ensures (y - 1968) / 4 == (y - 1969) / 4 + (if y % 4 == 0 then 1 else 0)
  {
  }

  lemma Hundredth(y: int)
    ensures (y - 1900) / 100 == (y - 1901) / 100 + (if y % 100 == 0 then 1 else 0)
  {
    var q, r := y / 100, y % 100;
    ByHundred(y - 1900, q - 19, r);
    if r == 0 { ByHundred(y - 1901, q - 20, 99); } else { ByHundred(y - 1901, q - 19, r - 1); }
  }

  lemma ByHundred(x: int, q: int, r: int)
    requires x == 100 * q + r && 0 <= r < 100
    ensures x / 100 == q
  {
  }

  lemma FourHundredth(y: int)
    ensures (y - 1600) / 400 == (y - 1601) / 400 + (if y % 400 == 0 then 1 else 0)
  {
    var q, r := y / 400, y % 400;
    ByFourHundred(y - 1600, q - 4, r);
    if r == 0 { ByFourHundred(y - 1601, q - 5, 399); } else { ByFourHundred(y - 1601, q - 4, r - 1); }
  }

  lemma ByFourHundred(x: int, q: int, r: int)
    requires x == 400 * q + r && 0 <= r < 400
    ensures x / 400 == q
  {
  }

  lemma {:induction false} YearsApart(y: int, z: int)
    requires y <= z
    ensures DayFromYear(y) + 365 * (z - y) <= DayFromYear(z)
    decreases z - y
  {
    if y < z {
      YearLength(z - 1);
      YearsApart(y, z - 1);
    }
  }

  /** Days of the year before the month `m`, counted 0..11, begins; 12 gives the whole year. */
  function DaysBeforeMonth(y: int, m: int): int
    requires 0 <= m <= 12
  {
    if m == 0 then 0 else DaysBeforeMonth(y, m - 1) + DaysInMonth(y, m)
  }

  lemma TwelveMonths(y: int)
    ensures DaysBeforeMonth(y, 12) == DaysInYear(y)
  {
    var leap := DaysInYear(y) - 365;
    assert DaysBeforeMonth(y, 1) == 31 && DaysBeforeMonth(y, 2) == 59 + leap;
    assert DaysBeforeMonth(y, 3) == 90 + leap && DaysBeforeMonth(y, 4) == 120 + leap;
    assert DaysBeforeMonth(y, 5) == 151 + leap && DaysBeforeMonth(y, 6) == 181 + leap;
    assert DaysBeforeMonth(y, 7) == 212 + leap && DaysBeforeMonth(y, 8) == 243 + leap;
    assert DaysBeforeMonth(y, 9) == 273 + leap && DaysBeforeMonth(y, 10) == 304 + leap;
    assert DaysBeforeMonth(y, 11) == 334 + leap;
  }

  lemma {:induction false} MonthsApart(y: int, m: int, n: int)
    requires 0 <= m <= n <= 12
    ensures DaysBeforeMonth(y, m) + 28 * (n - m) <= DaysBeforeMonth(y, n)
    ensures m < n ==> DaysBeforeMonth(y, m) + DaysInMonth(y, m + 1) <= DaysBeforeMonth(y, n)
    decreases n
  {
    if m < n { MonthsApart(y, m, n - 1); }
  }

  /** MakeDay: a month index outside 0..11 carries into the year and any day count is allowed. */
  function MakeDay(y: int, m: int, date: int): int {
    var ym, mn := y + m / 12, m % 12;
    DayFromYear(ym) + DaysBeforeMonth(ym, mn) + date - 1
  }

  /** The day number of a date. */
  function DayOf(c: Civil): int { MakeDay(c.year, c.month - 1, c.day) }

  /** YearFromTime: the year whose first day is the last one not after `d`, looked for from the year `y`. */
  function YearNear(d: int, y: int): (r: int)
    ensures DayFromYear(r) <= d < DayFromYear(r + 1)
    decreases if d < DayFromYear(y) then DayFromYear(y) - d
              else if d >= DayFromYear(y + 1) then d - DayFromYear(y + 1) + 1 else 0
  {
    hide DayFromYear;
    YearLength(y - 1);
    YearLength(y);
    YearLength(y + 1);
    if d < DayFromYear(y) then YearNear(d, y - 1)
    else if d >= DayFromYear(y + 1) then YearNear(d, y + 1)
    else y
  }

  /** MonthFromTime, counted 0..11: the month in which day `n` of the year falls. */
  function MonthNear(y: int, n: int, m: int): (r: int)
    requires 0 <= m < 12 && DaysBeforeMonth(y, m) <= n < DaysInYear(y)
    ensures 0 <= r < 12 && DaysBeforeMonth(y, r) <= n < DaysBeforeMonth(y, r + 1)
    decreases 12 - m
  {
    TwelveMonths(y);
    if n < DaysBeforeMonth(y, m + 1) then m
    else MonthNear(y, n, m + 1)
  }

  /** The date of a day number. */
  function CivilOf(d: int): Civil {
    var y := YearNear(d, 1970);
    YearLength(y);
    var n := d - DayFromYear(y);
    var m := MonthNear(y, n, 0);
    Civil(y, m + 1, n - DaysBeforeMonth(y, m) + 1)
  }

  /** Every day number has an existing date, and that date has this day number. */
  lemma DayNumberOfCivil(d: int)
    ensures Exists(CivilOf(d)) && DayOf(CivilOf(d)) == d
  {
    var y := YearNear(d, 1970);
    YearLength(y);
    DayWithoutCarry(CivilOf(d));
  }

  /** Day numbers order existing dates exactly as their fields do. */
  lemma DayOrder(a: Civil, b: Civil)
    requires Exists(a) && Exists(b)
    ensures DayOf(a) < DayOf(b) <==> Before(a, b)
  {
    if Before(a, b) {
      BeforeIsEarlier(a, b);
    } else if a != b {
      BeforeIsEarlier(b, a);
    }
  }

  lemma {:induction false} BeforeIsEarlier(a: Civil, b: Civil)
    requires Exists(a) && Exists(b) && Before(a, b)
    ensures DayOf(a) < DayOf(b)
  {
    if a.year < b.year { EarlierYear(a, b); } else { EarlierInYear(a.year, a, b); }
  }

  lemma EarlierYear(a: Civil, b: Civil)
    requires Exists(a) && Exists(b) && a.year < b.year
    ensures DayOf(a) < DayOf(b)
  {
    WithinYear(a);
    WithinYear(b);
    YearsApart(a.year + 1, b.year);
  }

  lemma EarlierInYear(y: int, a: Civil, b: Civil)
    requires Exists(a) && Exists(b) && Before(a, b) && a.year == y == b.year
    ensures DayOf(a) < DayOf(b)
  {
    hide DayFromYear, DayOf;
    DayWithoutCarry(a);
    DayWithoutCarry(b);
    if a.month < b.month { MonthsApart(y, a.month - 1, b.month - 1); }
  }

  lemma {:induction false} WithinYear(c: Civil)
    requires Exists(c)
    ensures DayFromYear(c.year) <= DayOf(c) < DayFromYear(c.year + 1)
  {
    DayWithoutCarry(c);
    MonthsApart(c.year, 0, c.month - 1);
    MonthsApart(c.year, c.month - 1, 12);
    TwelveMonths(c.year);
    YearLength(c.year);
  }

  /** A month of the calendar carries nothing into the year. */
  lemma DayWithoutCarry(c: Civil)
    requires 1 <= c.month <= 12
    ensures DayOf(c) == DayFromYear(c.year) + DaysBeforeMonth(c.year, c.month - 1) + c.day - 1
  {
    assert (c.month - 1) / 12 == 0 && (c.month - 1) % 12 == c.month - 1;
  }

  /** The two directions are inverse on existing dates: each date is the date of its own day number. */
  lemma {:induction false} CivilOfDayNumber(c: Civil)
    requires Exists(c)
    ensures CivilOf(DayOf(c)) == c
  {
    DayNumberOfCivil(DayOf(c));
    DayOrder(c, CivilOf(DayOf(c)));
    DayOrder(CivilOf(DayOf(c)), c);
  }

  /** Monday is 0 and Sunday is 6; day 0 was a Thursday. */
  function MondayBasedWeekday(d: int): (w: int)
    ensures 0 <= w < 7
  {
    (d + 3) % 7
  }

  /** The years 0 to 99 stand for 1900 to 1999 when a date is built from numbers (MakeFullYear). */
  function FullYear(y: int): int { if 0 <= y <= 99 then 1900 + y else y }

  /** Dates further than a hundred million days from 1970 are invalid (TimeClip). */
  const MAX_DAY := 100_000_000

  /** `new Date(Date.UTC(year, monthIndex, date))` as a day number. */
  function DateUtc(y: int, monthIndex: int, date: int): Option<int> {
    var d := MakeDay(FullYear(y), monthIndex, date);
    if -MAX_DAY <= d <= MAX_DAY then Some(d) else None
  }

  /** `getUTCDay`: Sunday is 0. */
  function UtcWeekday(d: int): int { (d + 4) % 7 }

  /** The range of dates: from 20 April of the year -271821 to 13 September of the year 275760. */
  lemma RangeOfDates()
    ensures DateUtc(275760, 8, 13) == Some(100_000_000) && DateUtc(275760, 8, 14) == None
    ensures DateUtc(-271821, 3, 20) == Some(-100_000_000) && DateUtc(-271821, 3, 19) == None
  {
    LastDate();
    FirstDate();
    hide MakeDay;
  }

  lemma LastDate()
    ensures MakeDay(275760, 8, 13) == 100_000_000 && MakeDay(275760, 8, 14) == 100_000_001
  {
    FormulaCountsYears(275760);
    hide DayFromYear;
  }

  lemma FirstDate()
    ensures MakeDay(-271821, 3, 20) == -100_000_000 && MakeDay(-271821, 3, 19) == -100_000_001
  {
    FormulaCountsYears(-271821);
    hide DayFromYear;
  }
}
