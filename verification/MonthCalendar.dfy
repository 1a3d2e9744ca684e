/** Month arithmetic, week bounds, the month grid and date ranges of the web client's calendar. */
module MonthCalendar {
  import opened Text
  import opened Options
  import opened CivilDate
  import opened ColomboDate

  function Min(a: int, b: int): int { if a <= b then a else b }

  // ---------- Months ----------

  /** The month that lies `months` after the month of `c`: its first day. */
  function MonthAfter(c: Civil, months: int): (first: Civil)
    ensures 1 <= first.month <= 12 && first.day == 1
  {
    var k := c.month - 1 + months;
    Civil(c.year + k / 12, k % 12 + 1, 1)
  }

  /** The same day of the month `months` later, or the last day of that month when it is shorter. */
  function MonthsOn(c: Civil, months: int): Civil {
    var t := MonthAfter(c, months);
    Civil(t.year, t.month, Min(c.day, DaysInMonth(t.year, t.month)))
  }

  /** The last day of a month as the program finds it: for the years 0 to 99 that of 1900 to 1999. */
  function LastDay(t: Civil): Civil { Civil(FullYear(t.year), t.month, DaysInMonth(FullYear(t.year), t.month)) }

  /** Where the program lands. */
  function LandsOn(c: Civil, months: int): (r: Civil)
    ensures 1 <= r.month <= 12 && (c.day >= 0 ==> r.day >= 0)
  {
    var t := MonthAfter(c, months);
    Civil(t.year, t.month, Min(c.day, LastDay(t).day))
  }

  predicate InRange(c: Civil) { -MAX_DAY <= DayOf(c) <= MAX_DAY }

  /** The month `months` later lies within the range of dates, with its first and its last day. */
  predicate Fits(c: Civil, months: int) {
    InRange(MonthAfter(c, months)) && InRange(LastDay(MonthAfter(c, months)))
  }

  function AddCalendarMonths(value: string, months: int): string
    requires IsDateText(value)
  {
    var c := Fields(value);
    match DateUtc(c.year, c.month - 1 + months, 1)
    case None => INVALID
    case Some(d) =>
      hide CivilOf, MakeDay, DayOf;
      DayNumberOfCivil(d);
      var target := CivilOf(d);
      match DateUtc(target.year, target.month, 0)
      case None => IntText(target.year) + "-" + Pad2(target.month) + "-NaN"
      case Some(last) =>
        DayNumberOfCivil(last);
        Ymd(target.year, target.month, Min(c.day, CivilOf(last).day))
  }

  /** The day before the first of the next month is the last day of the month. */
  lemma {:induction false} LastDayOfMonth(y: int, month: int)
    requires 1 <= month <= 12
    ensures CivilOf(MakeDay(y, month, 0)) == Civil(y, month, DaysInMonth(y, month))
  {
    var last := Civil(y, month, DaysInMonth(y, month));
    DayBeforeMonth(y, month);
    CivilOfDayNumber(last);
  }

  lemma {:induction false} DayBeforeMonth(y: int, month: int)
    requires 1 <= month <= 12
    ensures MakeDay(y, month, 0) == DayOf(Civil(y, month, DaysInMonth(y, month)))
  {
    hide DayFromYear;
    DayWithoutCarry(Civil(y, month, DaysInMonth(y, month)));
    assert DaysBeforeMonth(y, month) == DaysBeforeMonth(y, month - 1) + DaysInMonth(y, month);
    if month == 12 {
      YearLength(y);
      TwelveMonths(y);
      assert MakeDay(y, 12, 0) == DayFromYear(y + 1) - 1;
    } else {
      assert month / 12 == 0 && month % 12 == month;
    }
  }

  /** Carrying months into years, as `Date.UTC` does. */
  lemma MonthCarries(c: Civil, months: int)
    ensures MakeDay(c.year, c.month - 1 + months, 1) == DayOf(MonthAfter(c, months))
  {
    hide DayFromYear, DaysBeforeMonth;
    DayWithoutCarry(MonthAfter(c, months));
  }

  /** The text of an existing date that is not of the years 0 to 99; every calendar date text is one. */
  predicate NamesDate(value: string) {
    IsDateText(value) && Exists(Fields(value)) && Fields(value).year >= 100
  }

  lemma CalendarDateNamesDate(value: string)
    requires IsCalendarDate(value)
    ensures NamesDate(value) && Fields(value).year <= 9999
  {
    CalendarDateFields(value);
  }

  /** What is computed for any text that can be read, at the ends of the range of dates too. */
  lemma {:induction false} AddMonthsToText(value: string, months: int)
    requires IsDateText(value)
    ensures var c := Fields(value); var read := c.(year := FullYear(c.year));
            var t, r := MonthAfter(read, months), LandsOn(read, months);
            AddCalendarMonths(value, months)
            == if !InRange(t) then INVALID
               else if !Fits(read, months) then IntText(t.year) + "-" + Pad2(t.month) + "-NaN"
               else Ymd(r.year, r.month, r.day)
  {
    hide DayFromYear, DaysBeforeMonth, CivilOf, Ymd, IsDateText, Fields, DayOf, MakeDay, IntText, Pad2;
    var c := Fields(value);
    var t := MonthAfter(c.(year := FullYear(c.year)), months);
    MonthCarries(c.(year := FullYear(c.year)), months);
    CivilOfDayNumber(t);
    LastDayOfMonth(FullYear(t.year), t.month);
    DayBeforeMonth(FullYear(t.year), t.month);
  }

  /** The program lands in the same month as the calendar, and on the same day but for 29 February of the year 0. */
  lemma LandsOnIsMonthsOn(c: Civil, months: int)
    requires Exists(c)
    ensures Exists(LandsOn(c, months))
    ensures var t := MonthAfter(c, months);
            LandsOn(c, months) == MonthsOn(c, months) <==> !(t.year == 0 && t.month == 2 && c.day >= 29)
  {
    var t := MonthAfter(c, months);
    if 0 <= t.year <= 99 { LeapYearsRepeat(t.year); }
  }

  /** The first century and the twentieth have the same leap years, except that 0 is one and 1900 is not. */
  lemma LeapYearsRepeat(y: int)
    requires 0 <= y <= 99
    ensures IsLeap(1900 + y) == (IsLeap(y) && y != 0)
  {
    assert (1900 + y) % 4 == y % 4;
  }

  /**
   * The result lies exactly `months` months on, at the same day or the last day of the month, in every year within
   * the range of dates; only 29 February of the year 0 is passed over. It is a calendar date text exactly when its
   * year has four digits. Beyond the range the result is no date.
   */
  lemma {:induction false} AddMonthsLands(value: string, months: int)
    requires NamesDate(value)
    ensures var c, text := Fields(value), AddCalendarMonths(value, months);
            var r, t := LandsOn(c, months), MonthAfter(c, months);
            && Exists(r) && 12 * r.year + r.month == 12 * c.year + c.month + months
            && (r == MonthsOn(c, months) <==> !(t.year == 0 && t.month == 2 && c.day >= 29))
            && (Fits(c, months) ==> text == Ymd(r.year, r.month, r.day) && IsDateText(text)
                                    && (r.year >= 0 ==> Fields(text) == r)
                                    && (IsCalendarDate(text) <==> 1000 <= r.year <= 9999))
            && (!Fits(c, months) ==> forall date: Civil | Exists(date) :: text != Ymd(date.year, date.month, date.day))
  {
    hide DayFromYear, DaysBeforeMonth, CivilOf, IsCalendarDate, DayOf, Ymd, AddCalendarMonths, IsDateText, Fields;
    var c := Fields(value);
    var r := LandsOn(c, months);
    LandsOnIsMonthsOn(c, months);
    AddMonthsToText(value, months);
    if Fits(c, months) {
      PrintedIsCalendarDate(r);
      if r.year >= 0 { YmdFields(r.year, r.month, r.day); } else { NegativeYmdFields(r.year, r.month, r.day); }
    } else {
      forall date: Civil | Exists(date)
        ensures AddCalendarMonths(value, months) != Ymd(date.year, date.month, date.day)
      {
        NaNIsNoDate(date, IntText(MonthAfter(c, months).year) + "-" + Pad2(MonthAfter(c, months).month));
      }
    }
  }

  /** The text of a date ends in a digit. */
  lemma NaNIsNoDate(date: Civil, front: string)
    requires Exists(date)
    ensures var text := Ymd(date.year, date.month, date.day); text != INVALID && text != front + "-NaN"
  {
    var text := Ymd(date.year, date.month, date.day);
    assert text[|text| - 1] == Pad2(date.day)[|Pad2(date.day)| - 1];
    assert (front + "-NaN")[|front + "-NaN"| - 1] == 'N';
    assert INVALID[|INVALID| - 1] == 'N';
  }

  /** Later dates stay later, or land on the same day. */
  lemma LandsOnMonotone(a: Civil, b: Civil, months: int)
    requires Exists(a) && Exists(b) && DayOf(a) <= DayOf(b)
    ensures Exists(LandsOn(a, months)) && Exists(LandsOn(b, months))
    ensures DayOf(LandsOn(a, months)) <= DayOf(LandsOn(b, months))
  {
    hide DayOf;
    DayOrder(b, a);
    LandsOnIsMonthsOn(a, months);
    LandsOnIsMonthsOn(b, months);
    DayOrder(LandsOn(b, months), LandsOn(a, months));
  }

  /** A later date, moved by the same number of months, is never earlier, in any year within the range of dates. */
  lemma {:induction false} AddMonthsMonotone(earlier: string, later: string, months: int)
    requires NamesDate(earlier) && NamesDate(later) && DayOf(Fields(earlier)) <= DayOf(Fields(later))
    requires Fits(Fields(earlier), months) && Fits(Fields(later), months)
    ensures var r, s := LandsOn(Fields(earlier), months), LandsOn(Fields(later), months);
            && AddCalendarMonths(earlier, months) == Ymd(r.year, r.month, r.day)
            && AddCalendarMonths(later, months) == Ymd(s.year, s.month, s.day)
            && Exists(r) && Exists(s) && DayOf(r) <= DayOf(s)
  {
    hide AddCalendarMonths, IsCalendarDate, Ymd, DayOf, Fits;
    AddMonthsLands(earlier, months);
    AddMonthsLands(later, months);
    LandsOnMonotone(Fields(earlier), Fields(later), months);
  }

  lemma MonthAfterAddsUp(c: Civil, a: int, b: int)
    ensures MonthAfter(LandsOn(c, a), b) == MonthAfter(c, a + b)
  {
    var k := c.month - 1 + a;
    assert k == 12 * (k / 12) + k % 12;
    assert (k % 12 + b) / 12 + k / 12 == (k + b) / 12 && (k % 12 + b) % 12 == (k + b) % 12;
  }

  /** What is read from the text of a date that the program printed. */
  function ReadAs(c: Civil): Civil {
    if c.year >= 0 then c.(year := FullYear(c.year)) else Civil(1900, -c.year, c.month)
  }

  /** Before the year 100 another month is read, so that no number of months leads to the right one. */
  lemma OtherMonthIsRead(c: Civil, months: int)
    requires c.year < 100 && 1 <= c.month <= 12
    ensures var t, right := MonthAfter(ReadAs(c), months), MonthAfter(c, months);
            t.year != right.year || t.month != right.month
  {
    var read := ReadAs(c);
    MonthCount(read, months);
    MonthCount(c, months);
  }

  lemma MonthCount(c: Civil, months: int)
    ensures var t := MonthAfter(c, months); 12 * t.year + t.month == 12 * c.year + c.month + months
  {
  }

  /** Adding to the text of a date: right from the year 100 on when both land on the same day, and wrong before. */
  lemma {:induction false} AddMonthsToPrinted(mid: Civil, b: int, right: Civil)
    requires Exists(mid) && Exists(right) && right.(day := 1) == MonthAfter(mid, b) && Fits(mid, b)
    ensures var text := Ymd(mid.year, mid.month, mid.day);
            IsDateText(text) &&
            (AddCalendarMonths(text, b) == Ymd(right.year, right.month, right.day)
             <==> mid.year >= 100 && LandsOn(mid, b) == right)
  {
    hide AddCalendarMonths, Ymd, DayOf, IsDateText, Fields;
    if mid.year >= 0 {
      YmdFields(mid.year, mid.month, mid.day);
    } else {
      NegativeYmdFields(mid.year, mid.month, mid.day);
    }
    var text, read := Ymd(mid.year, mid.month, mid.day), ReadAs(mid);
    assert Fields(text).(year := FullYear(Fields(text).year)) == read;
    AddMonthsToText(text, b);
    var t, r := MonthAfter(read, b), LandsOn(read, b);
    NaNIsNoDate(right, IntText(t.year) + "-" + Pad2(t.month));
    assert 1 <= r.day < 100;
    if mid.year < 100 { OtherMonthIsRead(mid, b); }
    hide MonthAfter, LandsOn, Fits, Exists;
    if Ymd(r.year, r.month, r.day) == Ymd(right.year, right.month, right.day) { YmdInjective(r, right); }
  }

  /** Two steps of the calendar. */
  lemma LandsTwice(c: Civil, a: int, b: int)
    requires Exists(c)
    ensures var mid, end := LastDay(MonthAfter(c, a)), LastDay(MonthAfter(c, a + b));
            LandsOn(LandsOn(c, a), b) == LandsOn(c, a + b) <==> c.day <= mid.day || end.day <= mid.day
    ensures LandsOn(c, a + b).(day := 1) == MonthAfter(LandsOn(c, a), b)
    ensures Fits(LandsOn(c, a), b) == Fits(c, a + b)
  {
    hide DayOf;
    MonthAfterAddsUp(c, a, b);
    hide MonthAfter;
  }

  /**
   * Adding `a` and then `b` months is adding their sum, exactly when the date in between is not before the year 100,
   * and the first step keeps the day or the final month is no longer than the month in between. In particular
   * the steps add up for every day up to the 28th.
   */
  lemma {:induction false} AddMonthsAddUp(value: string, a: int, b: int)
    requires NamesDate(value) && Fits(Fields(value), a) && Fits(Fields(value), a + b)
    ensures var c := Fields(value);
            var mid, end := LastDay(MonthAfter(c, a)), LastDay(MonthAfter(c, a + b));
            IsDateText(AddCalendarMonths(value, a)) &&
            (AddCalendarMonths(AddCalendarMonths(value, a), b) == AddCalendarMonths(value, a + b)
             <==> MonthAfter(c, a).year >= 100 && (c.day <= mid.day || end.day <= mid.day))
  {
    hide AddCalendarMonths, IsCalendarDate, Ymd, DayOf, IsDateText, Fields, MonthAfter, LandsOn, LastDay, Fits, Exists;
    var c := Fields(value);
    AddMonthsLands(value, a);
    AddMonthsLands(value, a + b);
    LandsTwice(c, a, b);
    assert LandsOn(c, a).year == MonthAfter(c, a).year by { SameYear(c, a); }
    AddMonthsToPrinted(LandsOn(c, a), b, LandsOn(c, a + b));
  }

  /** For calendar dates: the result is one exactly when its year has four digits, however many months are added. */
  lemma {:induction false} AddMonthsStaysCalendarDate(value: string, months: int)
    requires IsCalendarDate(value)
    ensures var c, text := Fields(value), AddCalendarMonths(value, months);
            && (IsCalendarDate(text) <==> 1000 <= MonthAfter(c, months).year <= 9999)
            && (IsCalendarDate(text) ==> Fields(text) == MonthsOn(c, months))
  {
    hide AddCalendarMonths, IsCalendarDate, Ymd, DayOf, IsDateText, Fields, MonthAfter, LandsOn, MonthsOn, Fits, Exists;
    CalendarDateNamesDate(value);
    AddMonthsLands(value, months);
    SameYear(Fields(value), months);
    FourDigitsFit(Fields(value), months);
    if !Fits(Fields(value), months) { BeyondRange(value, months); }
  }

  lemma BeyondRange(value: string, months: int)
    requires NamesDate(value) && !Fits(Fields(value), months)
    ensures !IsCalendarDate(AddCalendarMonths(value, months))
  {
    hide IsCalendarDate, Fits, InRange, Fields, IsDateText, AddCalendarMonths, MonthAfter;
    var t := MonthAfter(Fields(value), months);
    AddMonthsToText(value, months);
    NaNIsNoCalendarDate(IntText(t.year) + "-" + Pad2(t.month));
  }

  lemma NaNIsNoCalendarDate(front: string)
    ensures !IsCalendarDate(INVALID) && !IsCalendarDate(front + "-NaN")
  {
    var text := front + "-NaN";
    assert text[|text| - 1] == 'N';
    if |text| == 10 { assert text[8..][1] == 'N'; }
  }

  /**
   * Moving back by as many months gives the fields of a calendar date back, exactly when the month in between has its
   * day and is not before the year 100. From the year 1000 on that is the text itself.
   */
  lemma {:induction false} AddMonthsUndone(value: string, months: int)
    requires IsCalendarDate(value) && Fits(Fields(value), months)
    ensures IsDateText(AddCalendarMonths(value, months))
    ensures var c := Fields(value); var t := MonthAfter(c, months);
            && (AddCalendarMonths(AddCalendarMonths(value, months), -months) == Ymd(c.year, c.month, c.day)
                <==> t.year >= 100 && c.day <= DaysInMonth(t.year, t.month))
            && (Ymd(c.year, c.month, c.day) == value <==> c.year >= 1000)
  {
    hide AddCalendarMonths, IsCalendarDate, Ymd, DayOf, IsDateText, Fields, Fits, MonthAfter, LandsOn, LastDay, Exists;
    var c := Fields(value);
    CalendarDateNamesDate(value);
    NamedDateExists(value);
    NoMonths(c);
    FourDigitsFit(c, 0);
    CalendarDateReprints(value);
    AddMonthsLands(value, 0);
    if MonthAfter(c, months).year >= 100 { LastDayOf(MonthAfter(c, months)); }
    AddMonthsAddUp(value, months, -months);
  }

  lemma NamedDateExists(value: string)
    requires NamesDate(value)
    ensures Exists(Fields(value)) && Fields(value).year >= 100
  {
  }

  lemma LastDayOf(t: Civil)
    requires t.year >= 100
    ensures LastDay(t).day == DaysInMonth(t.year, t.month)
  {
  }

  lemma NoMonths(c: Civil)
    requires Exists(c) && c.year >= 100
    ensures MonthAfter(c, 0) == c.(day := 1) && LandsOn(c, 0) == c && c.day <= LastDay(MonthAfter(c, 0)).day
  {
  }

  lemma FourDigitsFit(c: Civil, months: int)
    ensures 100 <= MonthAfter(c, months).year <= 9999 ==> Fits(c, months)
  {
    var t := MonthAfter(c, months);
    hide DayOf;
    if 100 <= t.year <= 9999 {
      FourDigitYearInRange(t);
      FourDigitYearInRange(LastDay(t));
    }
  }

  lemma SameYear(c: Civil, months: int)
    ensures LandsOn(c, months).year == MonthAfter(c, months).year
  {
  }

  /** On the last of a month, twice one month is not two months: 31 January leads to 28 and not to 31 March. */
  lemma MonthEndsDoNotAddUp()
    ensures IsCalendarDate("2026-01-31") && AddCalendarMonths("2026-01-31", 1) == "2026-02-28"
    ensures IsDateText("2026-02-28") && AddCalendarMonths("2026-02-28", 1) == "2026-03-28"
    ensures AddCalendarMonths("2026-01-31", 2) == "2026-03-31"
  {
    hide Ymd, AddCalendarMonths, IsCalendarDate, IsDateText, Fields;
    TextsOf2026();
    MonthSteps2026();
    LandsFromDate(Civil(2026, 1, 31), 1);
    LandsFromDate(Civil(2026, 1, 31), 2);
    LandsFromDate(Civil(2026, 2, 28), 1);
  }

  /** From the text of a date of a four-digit year to that of another. */
  lemma LandsFromDate(c: Civil, months: int)
    requires Exists(c) && 1000 <= c.year <= 9999 && 1000 <= MonthAfter(c, months).year <= 9999
    ensures var value, r := Ymd(c.year, c.month, c.day), LandsOn(c, months);
            && IsCalendarDate(value) && IsDateText(value)
            && AddCalendarMonths(value, months) == Ymd(r.year, r.month, r.day)
  {
    hide Ymd, AddCalendarMonths, IsCalendarDate, IsDateText, Fields, DayOf;
    PrintedIsCalendarDate(c);
    YmdFields(c.year, c.month, c.day);
    FourDigitsFit(c, months);
    AddMonthsLands(Ymd(c.year, c.month, c.day), months);
  }

  lemma MonthSteps2026()
    ensures LandsOn(Civil(2026, 1, 31), 1) == Civil(2026, 2, 28) && LandsOn(Civil(2026, 1, 31), 2) == Civil(2026, 3, 31)
    ensures LandsOn(Civil(2026, 2, 28), 1) == Civil(2026, 3, 28)
  {
  }

  lemma TextsOf2026()
    ensures Ymd(2026, 1, 31) == "2026-01-31" && Ymd(2026, 2, 28) == "2026-02-28"
    ensures Ymd(2026, 3, 28) == "2026-03-28" && Ymd(2026, 3, 31) == "2026-03-31"
  {
    hide Ymd;
    YearText();
    assert "2026" + "-" + "01" + "-" + "31" == "2026-01-31" && "2026" + "-" + "02" + "-" + "28" == "2026-02-28";
    assert "2026" + "-" + "03" + "-" + "28" == "2026-03-28" && "2026" + "-" + "03" + "-" + "31" == "2026-03-31";
    TwoDigits(1, '0', '1');
    TwoDigits(2, '0', '2');
    TwoDigits(3, '0', '3');
    TwoDigits(28, '2', '8');
    TwoDigits(31, '3', '1');
    assert forall m: nat, d: nat :: Ymd(2026, m, d) == "2026" + "-" + Pad2(m) + "-" + Pad2(d) by { PartsOf2026(); }
    assert Pad2(1) == "01" && Pad2(2) == "02" && Pad2(3) == "03" && Pad2(28) == "28" && Pad2(31) == "31";
  }

  lemma YearText()
    ensures IntText(2026) == "2026"
  {
    assert Numeral(2) == "2" && Numeral(20) == "20" && Numeral(202) == "202";
  }

  lemma PartsOf2026()
    ensures forall m: nat, d: nat :: Ymd(2026, m, d) == "2026" + "-" + Pad2(m) + "-" + Pad2(d)
  {
    YearText();
    hide IntText, Pad2;
  }

  lemma TwoDigits(n: nat, tens: char, ones: char)
    requires n < 100 && IsDigit(tens) && IsDigit(ones)
    requires n == 10 * (tens as int - '0' as int) + (ones as int - '0' as int)
    ensures Pad2(n) == [tens, ones]
  {
    var text := [tens, ones];
    assert text[..1] == [tens] && [tens][..0] == [];
    assert NumberOf([tens]) == tens as int - '0' as int;
    DigitsDetermined(Pad2(n), text);
  }

  // ---------- Weeks ----------

  function WeekBound(value: string, end: bool): string
    requires IsDateText(value)
  {
    var c := Fields(value);
    match DateUtc(c.year, c.month - 1, c.day)
    case None => INVALID
    case Some(d) =>
      var mondayOffset := (UtcWeekday(d) + 6) % 7;
      AddCalendarDays(value, if end then 6 - mondayOffset else -mondayOffset)
  }

  /** The Monday on or before a day. */
  function MondayOf(d: int): (m: int)
    ensures m <= d <= m + 6 && MondayBasedWeekday(m) == 0
  {
    d - MondayBasedWeekday(d)
  }

  /** Week bounds are the Monday on or before the date and the Sunday six days after it. */
  lemma {:induction false} WeekBoundIs(value: string, end: bool)
    requires IsDateText(value) && Exists(ReadAs(Fields(value))) && 0 <= Fields(value).year <= 10000
    ensures var m := MondayOf(DayOf(ReadAs(Fields(value))));
            WeekBound(value, end) == YmdOf(Some(if end then m + 6 else m))
  {
    hide MakeDay, DayOf, CivilOf, IsDateText, AddCalendarDays, YmdOf, Fields, Exists, UtcWeekday;
    var c := ReadAs(Fields(value));
    WeekInRange(c);
    MakeDayIsDay(c, 0);
    assert DateUtc(Fields(value).year, Fields(value).month - 1, Fields(value).day) == Some(DayOf(c));
    WeekdayOffset(DayOf(c));
    AddDaysToRead(value, if end then 6 - MondayBasedWeekday(DayOf(c)) else -MondayBasedWeekday(DayOf(c)));
  }

  lemma {:induction false} AddDaysToRead(value: string, days: int)
    requires IsDateText(value) && Exists(ReadAs(Fields(value))) && 0 <= Fields(value).year <= 10000 && -6 <= days <= 6
    ensures AddCalendarDays(value, days) == YmdOf(Some(DayOf(ReadAs(Fields(value))) + days))
  {
    hide MakeDay, DayOf, CivilOf, IsDateText, YmdOf, Fields;
    WeekInRange(ReadAs(Fields(value)));
    MakeDayIsDay(ReadAs(Fields(value)), days);
  }

  lemma WeekInRange(c: Civil)
    requires Exists(c) && 0 <= c.year <= 11000
    ensures -MAX_DAY + 6 <= DayOf(c) <= MAX_DAY - 6
  {
    hide DayFromYear, DaysBeforeMonth;
    FourDigitYearInRange(c.(day := c.day - 6));
    FourDigitYearInRange(c.(day := c.day + 6));
    MakeDayIsDay(c, 6);
    MakeDayIsDay(c, -6);
    assert DayOf(c.(day := c.day + 6)) == DayOf(c) + 6 && DayOf(c.(day := c.day - 6)) == DayOf(c) - 6;
  }

  lemma WeekdayOffset(d: int)
    ensures (UtcWeekday(d) + 6) % 7 == MondayBasedWeekday(d)
  {
  }

  /**
   * For every calendar date, the two bounds enclose it, lie six days apart and start on a Monday, and the bounds of
   * the Sunday are the same two dates. So are those of the Monday, exactly when it is not of the year 99.
   */
  lemma {:induction false} WeekEncloses(value: string)
    requires IsCalendarDate(value)
    ensures var s, e := WeekBound(value, false), WeekBound(value, true);
            && IsDateText(s) && IsDateText(e)
            && DayOf(Fields(s)) <= DayOf(Fields(value)) <= DayOf(Fields(e)) == DayOf(Fields(s)) + 6
            && MondayBasedWeekday(DayOf(Fields(s))) == 0
            && WeekBound(e, false) == s && WeekBound(e, true) == e
            && (WeekBound(s, false) == s <==> Fields(s).year >= 100)
            && (WeekBound(s, true) == e <==> Fields(s).year >= 100)
  {
    hide DayOf, IsCalendarDate, CivilOf, IsDateText, WeekBound, YmdOf, Fields;
    CalendarDateFields(value);
    var d := DayOf(Fields(value));
    var m := MondayOf(d);
    NearbyYear(Fields(value), m);
    NearbyYear(Fields(value), m + 6);
    EarlierYearBound(Fields(value), m);
    SundayYear(Fields(value), m + 6);
    WeekBoundIs(value, false);
    WeekBoundIs(value, true);
    PrintedDay(m);
    WeekOfPrinted(m + 6);
    if CivilOf(m).year >= 100 { WeekOfPrinted(m); } else { WeekOfCentury(m); }
  }

  lemma EarlierYearBound(c: Civil, d: int)
    requires Exists(c) && d > DayOf(c) - 300
    ensures CivilOf(d).year >= c.year - 1
  {
    hide CivilOf, DayOf, DayFromYear;
    DayNumberOfCivil(d);
    WithinYear(c);
    WithinYear(CivilOf(d));
    if CivilOf(d).year < c.year - 1 {
      YearsApart(CivilOf(d).year + 1, c.year - 1);
      YearLength(c.year - 1);
    }
  }

  lemma SundayYear(c: Civil, d: int)
    requires Exists(c) && d >= DayOf(c)
    ensures CivilOf(d).year >= c.year
  {
    CivilOfDayNumber(c);
    LaterYear(DayOf(c), d);
  }

  /** The text of a Monday of the year 99 leads to a week of the year 1999. */
  lemma {:induction false} WeekOfCentury(m: int)
    requires CivilOf(m).year == 99
    ensures IsDateText(YmdOf(Some(m)))
    ensures WeekBound(YmdOf(Some(m)), false) != YmdOf(Some(m)) && WeekBound(YmdOf(Some(m)), true) != YmdOf(Some(m + 6))
  {
    hide DayOf, IsDateText, CivilOf, WeekBound, YmdOf, Fields;
    PrintedDay(m);
    var c := CivilOf(m);
    CenturyMoves(c);
    WeekBoundIs(YmdOf(Some(m)), false);
    WeekBoundIs(YmdOf(Some(m)), true);
    var monday := MondayOf(DayOf(c.(year := c.year + 1900)));
    if YmdOf(Some(monday)) == YmdOf(Some(m)) { YmdOfInjective(monday, m); }
    if YmdOf(Some(monday + 6)) == YmdOf(Some(m + 6)) { YmdOfInjective(monday + 6, m + 6); }
  }

  /** The week of 1 January 100 starts in the year 99, and the week of that Monday is read in the year 1999. */
  lemma WeekOfYearHundred()
    ensures var value, monday := "0" + Ymd(100, 1, 1), Ymd(99, 12, 28);
            && IsCalendarDate(value) && IsDateText(monday)
            && WeekBound(value, false) == monday && WeekBound(monday, false) == Ymd(1999, 12, 27)
  {
    hide CivilOf, IsCalendarDate, DayOf, Ymd, IsDateText, Fields, WeekBound;
    var value, monday := "0" + Ymd(100, 1, 1), Ymd(99, 12, 28);
    ShortYearIsShortened(Civil(100, 1, 1));
    YmdFields(99, 12, 28);
    MondaysNearby();
    WeekBoundIs(value, false);
    WeekBoundIs(monday, false);
    CivilOfDayNumber(Civil(99, 12, 28));
    CivilOfDayNumber(Civil(1999, 12, 27));
  }

  lemma MondaysNearby()
    ensures MondayOf(DayOf(Civil(100, 1, 1))) == DayOf(Civil(99, 12, 28))
    ensures MondayOf(DayOf(Civil(1999, 12, 28))) == DayOf(Civil(1999, 12, 27))
  {
    hide DayOf;
    DaysOfTwoYears();
    NewYear(99);
    NewYear(1999);
    DaysBack(99, 31, 28);
    DaysBack(1999, 31, 28);
    DaysBack(1999, 31, 27);
  }

  lemma DaysBack(y: int, from: int, day: int)
    ensures DayOf(Civil(y, 12, day)) == DayOf(Civil(y, 12, from)) - from + day
  {
  }

  lemma DaysOfTwoYears()
    ensures DayOf(Civil(100, 1, 1)) == -683003 && DayOf(Civil(2000, 1, 1)) == 10957
  {
    hide DayFromYear;
    DayWithoutCarry(Civil(100, 1, 1));
    FormulaCountsYears(100);
    DayWithoutCarry(Civil(2000, 1, 1));
    FormulaCountsYears(2000);
  }

  lemma {:induction false} WeekOfPrinted(d: int)
    requires 100 <= CivilOf(d).year <= 10000
    ensures var v := YmdOf(Some(d));
            && IsDateText(v) && DayOf(Fields(v)) == d
            && WeekBound(v, false) == YmdOf(Some(MondayOf(d))) && WeekBound(v, true) == YmdOf(Some(MondayOf(d) + 6))
  {
    hide DayOf, IsDateText, CivilOf, WeekBound, YmdOf;
    PrintedDay(d);
    WeekBoundIs(YmdOf(Some(d)), false);
    WeekBoundIs(YmdOf(Some(d)), true);
  }

  lemma PrintedDay(d: int)
    requires CivilOf(d).year >= 0
    ensures IsDateText(YmdOf(Some(d))) && Fields(YmdOf(Some(d))) == CivilOf(d)
    ensures Exists(CivilOf(d)) && DayOf(CivilOf(d)) == d
  {
    hide CivilOf;
    DayNumberOfCivil(d);
    YmdFields(CivilOf(d).year, CivilOf(d).month, CivilOf(d).day);
  }

  /** Days less than a year apart fall in neighbouring years. */
  lemma NearbyYear(c: Civil, d: int)
    requires Exists(c) && d <= DayOf(c) + 300
    ensures CivilOf(d).year <= c.year + 1
  {
    hide CivilOf, DayOf, DayFromYear;
    DayNumberOfCivil(d);
    WithinYear(c);
    WithinYear(CivilOf(d));
    if CivilOf(d).year > c.year + 1 {
      YearsApart(c.year + 2, CivilOf(d).year);
      YearLength(c.year + 1);
    }
  }

  lemma LaterYear(d: int, e: int)
    requires d <= e
    ensures CivilOf(d).year <= CivilOf(e).year
  {
    hide CivilOf, DayOf;
    DayNumberOfCivil(d);
    DayNumberOfCivil(e);
    DayOrder(CivilOf(e), CivilOf(d));
  }

  // ---------- The month grid ----------

  /** A cell of the grid: empty before the first of the month. */
  datatype Cell = Cell(day: Option<nat>, value: string)

  /** The month that is meant: a month index from 12 on carries into the year, after the years 0 to 99 were moved. */
  function MonthMeant(year: int, monthIndex: nat): Civil { MonthAfter(Civil(FullYear(year), 1, 1), monthIndex) }

  /** The days of the month, unless its last day is beyond the range of dates. */
  function GridDays(year: int, monthIndex: nat): nat {
    var t := MonthMeant(year, monthIndex);
    if DateUtc(year, monthIndex + 1, 0).Some? then DaysInMonth(t.year, t.month) else 0
  }

  /** The empty cells in front of the first, unless the first is beyond the range of dates. */
  function GridLeading(year: int, monthIndex: nat): nat {
    if DateUtc(year, monthIndex, 1).Some? then MondayBasedWeekday(DayOf(MonthMeant(year, monthIndex))) else 0
  }

  /** The cells before the first of the month, and those of the days so far. */
  ghost predicate GridOf(cells: seq<Cell>, leading: nat, year: int, monthIndex: nat) {
    && leading <= |cells|
    && (forall i | 0 <= i < leading :: cells[i] == Cell(None, ""))
    && (forall i | leading <= i < |cells| ::
          cells[i] == Cell(Some(i - leading + 1), Ymd(year, monthIndex + 1, i - leading + 1)))
  }

  /** Every day stands in the column of its weekday. */
  ghost predicate InColumns(leading: nat, days: nat, year: int, monthIndex: nat) {
    forall day | 1 <= day <= days ::
      (leading + day - 1) % 7 == MondayBasedWeekday(DayOf(MonthMeant(year, monthIndex).(day := day)))
  }

  /**
   * The cells of a month: empty ones up to the column of the first, then the days 1 to the last of the month,
   * once each and in order, every day in the column of its weekday.
   */
  method CalendarMonthGrid(year: int, monthIndex: nat) returns (cells: seq<Cell>)
    ensures |cells| == GridLeading(year, monthIndex) + GridDays(year, monthIndex)
    ensures GridOf(cells, GridLeading(year, monthIndex), year, monthIndex)
    ensures DateUtc(year, monthIndex, 1).Some? ==>
              InColumns(GridLeading(year, monthIndex), GridDays(year, monthIndex), year, monthIndex)
  {
    GridBounds(year, monthIndex);
    hide MakeDay, CivilOf, Ymd, GridLeading, GridDays, InColumns;
    var first, end := DateUtc(year, monthIndex, 1), DateUtc(year, monthIndex + 1, 0);
    var leading := if first.Some? then (UtcWeekday(first.value) + 6) % 7 else 0;
    var daysInMonth := if end.Some? then CivilOf(end.value).day else 0;
    cells := [];
    for index := 0 to leading
      invariant |cells| == index
      invariant forall i | 0 <= i < index :: cells[i] == Cell(None, "")
    {
      cells := cells + [Cell(None, "")];
    }
    if daysInMonth < 1 { return; }
    for day := 1 to daysInMonth + 1
      invariant |cells| == leading + day - 1
      invariant GridOf(cells, leading, year, monthIndex)
    {
      cells := cells + [Cell(Some(day), Ymd(year, monthIndex + 1, day))];
    }
  }

  /** What the two dates say that the program builds. */
  lemma GridBounds(year: int, monthIndex: nat)
    ensures var first, end := DateUtc(year, monthIndex, 1), DateUtc(year, monthIndex + 1, 0);
            && GridLeading(year, monthIndex) == (if first.Some? then (UtcWeekday(first.value) + 6) % 7 else 0)
            && GridDays(year, monthIndex) == (if end.Some? then CivilOf(end.value).day else 0)
            && (first.Some? ==> InColumns(GridLeading(year, monthIndex), GridDays(year, monthIndex), year, monthIndex))
  {
    FirstOfGrid(year, monthIndex);
    LastOfGrid(year, monthIndex);
    hide DateUtc, CivilOf, UtcWeekday, MondayBasedWeekday, MonthMeant, DayOf, GridDays;
    var t := MonthMeant(year, monthIndex);
    assert t.day == 1 by { MonthMeantIsFirst(year, monthIndex); }
    if DateUtc(year, monthIndex, 1).Some? {
      forall day | 1 <= day <= GridDays(year, monthIndex)
        ensures (GridLeading(year, monthIndex) + day - 1) % 7 == MondayBasedWeekday(DayOf(t.(day := day)))
      {
        DayInColumn(t, day);
      }
    }
  }

  lemma MonthMeantIsFirst(year: int, monthIndex: nat)
    ensures MonthMeant(year, monthIndex).day == 1
  {
  }

  lemma FirstOfGrid(year: int, monthIndex: nat)
    ensures var first := DateUtc(year, monthIndex, 1);
            first.Some? ==> first.value == DayOf(MonthMeant(year, monthIndex))
                            && GridLeading(year, monthIndex) == (UtcWeekday(first.value) + 6) % 7
  {
    MonthCarries(Civil(FullYear(year), 1, 1), monthIndex);
    hide MakeDay, DayOf, UtcWeekday, MondayBasedWeekday;
    if DateUtc(year, monthIndex, 1).Some? { WeekdayOffset(DateUtc(year, monthIndex, 1).value); }
  }

  lemma LastOfGrid(year: int, monthIndex: nat)
    ensures var end := DateUtc(year, monthIndex + 1, 0);
            GridDays(year, monthIndex) == if end.Some? then CivilOf(end.value).day else 0
  {
    var t := MonthMeant(year, monthIndex);
    MonthEndCarries(Civil(FullYear(year), 1, 1), monthIndex);
    LastDayOfMonth(t.year, t.month);
    hide MakeDay, CivilOf;
  }

  lemma MonthEndCarries(c: Civil, months: int)
    ensures var t := MonthAfter(c, months); MakeDay(c.year, c.month + months, 0) == MakeDay(t.year, t.month, 0)
  {
    hide DayFromYear, DaysBeforeMonth;
    var k := c.month - 1 + months;
    assert k == 12 * (k / 12) + k % 12;
    assert (k + 1) / 12 == k / 12 + (k % 12 + 1) / 12 && (k + 1) % 12 == (k % 12 + 1) % 12;
  }

  lemma DayInColumn(t: Civil, day: int)
    requires t.day == 1
    ensures (MondayBasedWeekday(DayOf(t)) + day - 1) % 7 == MondayBasedWeekday(DayOf(t.(day := day)))
  {
    DayShift(t, day);
    hide DayOf, MondayBasedWeekday;
    WeekdayMoves(DayOf(t), day - 1);
  }

  lemma DayShift(t: Civil, day: int)
    ensures DayOf(t.(day := day)) == DayOf(t) + day - t.day
  {
  }

  lemma WeekdayMoves(d: int, n: int)
    ensures (MondayBasedWeekday(d) + n) % 7 == MondayBasedWeekday(d + n)
  {
    var q, x := (d + 3) / 7, (d + 3) % 7 + n;
    BySeven(x, x / 7, x % 7);
    BySeven(d + 3 + n, q + x / 7, x % 7);
  }

  lemma BySeven(x: int, q: int, r: int)
    requires x == 7 * q + r && 0 <= r < 7
    ensures x % 7 == r
  {
  }

  // ---------- Ranges ----------

  /** An absent bound is the empty text. */
  predicate DateOutsideRange(value: string, minDate: string, maxDate: string) {
    (minDate != "" && Less(value, minDate)) || (maxDate != "" && Less(maxDate, value))
  }

  /** On calendar dates, plain string order is the order of the days. */
  lemma {:induction false} StringOrderIsDayOrder(a: string, b: string)
    requires IsCalendarDate(a) && IsCalendarDate(b)
    ensures Less(a, b) <==> DayOf(Fields(a)) < DayOf(Fields(b))
  {
    hide DayOf, CalendarDateExists, Less, Exists, Fields;
    CalendarDateFields(a);
    CalendarDateFields(b);
    IsoShapeFields(a);
    IsoShapeFields(b);
    DayOrder(Fields(a), Fields(b));
    LessIsNumeric(a[..4], b[..4]);
    LessIsNumeric(a[5..7], b[5..7]);
    LessIsNumeric(a[8..], b[8..]);
    LessDashed(a[..4], a[5..7] + "-" + a[8..], b[..4], b[5..7] + "-" + b[8..]);
    LessDashed(a[5..7], a[8..], b[5..7], b[8..]);
    assert a == a[..4] + "-" + (a[5..7] + "-" + a[8..]) && b == b[..4] + "-" + (b[5..7] + "-" + b[8..]);
    if NumberOf(a[..4]) == NumberOf(b[..4]) { DigitsDetermined(a[..4], b[..4]); }
    if NumberOf(a[5..7]) == NumberOf(b[5..7]) { DigitsDetermined(a[5..7], b[5..7]); }
  }

  lemma LessDashed(a: string, x: string, b: string, y: string)
    requires |a| == |b|
    ensures Less(a + "-" + x, b + "-" + y) <==> Less(a, b) || (a == b && Less(x, y))
  {
    LessByParts(a, "-" + x, b, "-" + y);
    assert a + "-" + x == a + ("-" + x) && b + "-" + y == b + ("-" + y);
    LessByParts("-", x, "-", y);
    assert !Less("-", "-");
  }

  /** A date is outside the range exactly when its day lies before the first or after the last day allowed. */
  lemma {:induction false} OutsideRangeIff(value: string, minDate: string, maxDate: string)
    requires IsCalendarDate(value)
    requires minDate == "" || IsCalendarDate(minDate)
    requires maxDate == "" || IsCalendarDate(maxDate)
    ensures DateOutsideRange(value, minDate, maxDate)
            <==> (minDate != "" && DayOf(Fields(value)) < DayOf(Fields(minDate)))
                 || (maxDate != "" && DayOf(Fields(value)) > DayOf(Fields(maxDate)))
  {
    hide DayOf, IsCalendarDate, Less;
    if minDate != "" { StringOrderIsDayOrder(value, minDate); }
    if maxDate != "" { StringOrderIsDayOrder(maxDate, value); }
  }
}
