/**
 * The calendar helpers of the web client: dates as "YYYY-MM-DD" texts, typed dates, day and month
 * arithmetic, weeks and the month grid.
 */
module ColomboDate {
  import opened Text
  import opened Options
  import opened CivilDate

  const MONTHS: seq<string> :=
    ["Jan", "Feb", "Mar", "Apr", "May", "Jun", "Jul", "Aug", "Sep", "Oct", "Nov", "Dec"]

  const LONG_MONTHS: seq<string> :=
    ["january", "february", "march", "april", "may", "june", "july", "august", "september", "october",
     "november", "december"]

  const INVALID := "NaN-NaN-NaN"

  // ---------- The text of a date ----------

  /** The year is not padded; month and day are padded to two digits. */
  function Ymd(year: int, month: nat, day: nat): string {
    IntText(year) + "-" + Pad2(month) + "-" + Pad2(day)
  }

  function YmdOf(date: Option<int>): string {
    match date
    case None => INVALID
    case Some(d) =>
      DayNumberOfCivil(d);
      Ymd(CivilOf(d).year, CivilOf(d).month, CivilOf(d).day)
  }

  /**
   * `value.split("-").map(Number)` gives at least three numbers, the first three written in digits. An empty part
   * counts as zero, so the text of a date before the year 0 is read too, but not as its own date.
   */
  predicate IsDateText(value: string) {
    var parts := Split(value, '-');
    |parts| >= 3 && forall k | 0 <= k < 3 :: AllDigits(parts[k])
  }

  function Fields(value: string): (c: Civil)
    requires IsDateText(value)
    ensures c.year >= 0 && c.month >= 0 && c.day >= 0
  {
    var parts := Split(value, '-');
    Civil(NumberOf(parts[0]), NumberOf(parts[1]), NumberOf(parts[2]))
  }

  lemma DigitsHaveNoDash(year: nat, month: nat, day: nat)
    ensures '-' !in IntText(year) && '-' !in Pad2(month) && '-' !in Pad2(day)
    ensures AllDigits(IntText(year)) && IntText(year) != "" && NumberOf(IntText(year)) == year
  {
    assert !IsDigit('-');
  }

  /** Reading the printed fields gives them back, whatever the year that is not negative. */
  lemma YmdFields(year: nat, month: nat, day: nat)
    ensures IsDateText(Ymd(year, month, day))
    ensures Fields(Ymd(year, month, day)) == Civil(year, month, day)
  {
    hide IntText, Pad2;
    DigitsHaveNoDash(year, month, day);
    var y, m, d := IntText(year), Pad2(month), Pad2(day);
    assert y + "-" + m + "-" + d == y + ['-'] + (m + ['-'] + d);
    SplitAtSeparator(y, '-', m + ['-'] + d);
    SplitAtSeparator(m, '-', d);
    SplitWithoutSeparator(d, '-');
  }

  /** In front of a negative year the text has one more dash, so year and month are read a place too late. */
  lemma NegativeYmdFields(year: int, month: nat, day: nat)
    requires year < 0
    ensures IsDateText(Ymd(year, month, day))
    ensures Fields(Ymd(year, month, day)) == Civil(0, -year, month)
  {
    var text, positive := Ymd(year, month, day), Ymd(-year, month, day);
    hide Ymd;
    YmdFields(-year, month, day);
    assert text == "" + ['-'] + positive by { NegativeYmd(year, month, day); }
    SplitAtSeparator("", '-', positive);
  }

  lemma NegativeYmd(year: int, month: nat, day: nat)
    requires year < 0
    ensures Ymd(year, month, day) == "" + ['-'] + Ymd(-year, month, day)
  {
    var y, m, d := Numeral(-year), Pad2(month), Pad2(day);
    assert "-" + y + "-" + m + "-" + d == "" + ['-'] + (y + "-" + m + "-" + d);
  }

  /** Two parts of two characters at the end are found from the end. */
  lemma DashedParts(y: string, m: string, d: string)
    requires |m| == 2 && |d| == 2
    ensures var s := y + "-" + m + "-" + d; var n := |s|;
            n >= 6 && s[..n - 6] == y && s[n - 5..n - 3] == m && s[n - 2..] == d
  {
  }

  /** Different dates have different texts, also outside the four-digit years. */
  lemma YmdInjective(a: Civil, b: Civil)
    requires 1 <= a.month < 100 && 1 <= a.day < 100 && 1 <= b.month < 100 && 1 <= b.day < 100
    requires Ymd(a.year, a.month, a.day) == Ymd(b.year, b.month, b.day)
    ensures a == b
  {
    DashedParts(IntText(a.year), Pad2(a.month), Pad2(a.day));
    DashedParts(IntText(b.year), Pad2(b.month), Pad2(b.day));
    IntTextInjective(a.year, b.year);
  }

  lemma {:induction false} YmdOfInjective(d: int, e: int)
    requires YmdOf(Some(d)) == YmdOf(Some(e))
    ensures d == e
  {
    DayNumberOfCivil(d);
    DayNumberOfCivil(e);
    YmdInjective(CivilOf(d), CivilOf(e));
  }

  // ---------- Which texts are calendar dates ----------

  /** `^\d{4}-\d{2}-\d{2}$` */
  predicate IsoShape(value: string) {
    |value| == 10 && AllDigits(value[..4]) && value[4] == '-' && AllDigits(value[5..7]) && value[7] == '-'
    && AllDigits(value[8..])
  }

  lemma IsoShapeFields(value: string)
    requires IsoShape(value)
    ensures IsDateText(value)
    ensures Fields(value) == Civil(NumberOf(value[..4]), NumberOf(value[5..7]), NumberOf(value[8..]))
    ensures Fields(value).year <= 9999 && Fields(value).month <= 99 && Fields(value).day <= 99
    ensures Fields(value).year >= 1000 <==> value[0] != '0'
  {
    var y, m, d := value[..4], value[5..7], value[8..];
    assert value == y + ['-'] + (m + ['-'] + d);
    SplitAtSeparator(y, '-', m + ['-'] + d);
    SplitAtSeparator(m, '-', d);
    SplitWithoutSeparator(d, '-');
    assert Pow10(2) == 100 && Pow10(3) == 1000 && Pow10(4) == 10000;
    NumberBelow(y);
    NumberBelow(m);
    NumberBelow(d);
    if y[0] != '0' { LeadingDigit(y); } else { LeadingZero(y); }
  }

  lemma LeadingZero(y: string)
    requires AllDigits(y) && |y| == 4 && y[0] == '0'
    ensures NumberOf(y) < 1000
  {
    assert y[..3][..2][..1] == "0" && "0"[..0] == "";
    assert NumberOf(y[..3][..2][..1]) == 0;
    assert NumberOf(y[..3][..2]) <= 9;
    assert NumberOf(y[..3]) <= 99;
  }

  /** `calendarDateExists`: the date built from the numbers still has these numbers. */
  predicate CalendarDateExists(year: int, month: int, day: int) {
    if month < 1 || month > 12 || day < 1 then false else
      var date := DateUtc(year, month - 1, day);
      date.Some? && CivilOf(date.value) == Civil(year, month, day)
  }

  /** For years of up to four digits: exactly the dates that exist, except those of the years 0 to 99. */
  lemma CalendarDateExistsIff(year: int, month: int, day: int)
    requires 0 <= year <= 9999 && day <= 99
    ensures CalendarDateExists(year, month, day) <==> year >= 100 && Exists(Civil(year, month, day))
  {
    hide DayFromYear, DaysBeforeMonth, CivilOf;
    if 1 <= month <= 12 && day >= 1 {
      var c := Civil(year, month, day);
      FourDigitYearInRange(Civil(FullYear(year), month, day));
      if year >= 100 && Exists(c) { CivilOfDayNumber(c); }
      if CalendarDateExists(year, month, day) {
        var d := DayOf(Civil(FullYear(year), month, day));
        DayNumberOfCivil(d);
        if year < 100 { CenturyMoves(c); }
      }
    }
  }

  lemma FourDigitYearInRange(c: Civil)
    requires -9999 <= c.year <= 11000 && 1 <= c.month <= 12 && -1000000 <= c.day <= 1000000
    ensures -MAX_DAY <= DayOf(c) <= MAX_DAY
  {
    DayWithoutCarry(c);
    FormulaCountsYears(c.year);
    MonthsApart(c.year, 0, c.month - 1);
    MonthsApart(c.year, c.month - 1, 12);
    TwelveMonths(c.year);
  }

  /** A date nineteen centuries on has another day number, with room to spare. */
  lemma CenturyMoves(c: Civil)
    requires 1 <= c.month <= 12
    ensures DayOf(c) + 1000 < DayOf(c.(year := c.year + 1900))
  {
    hide DayFromYear, MakeDay, DayOf;
    var z := c.(year := c.year + 1900);
    DayWithoutCarry(c);
    DayWithoutCarry(z);
    YearsApart(c.year, z.year);
    MonthsApart(c.year, 0, c.month - 1);
    MonthsApart(c.year, c.month - 1, 12);
    TwelveMonths(c.year);
    MonthsApart(z.year, 0, c.month - 1);
  }

  predicate IsCalendarDate(value: string): (known: bool)
    ensures known ==> IsDateText(value)
  {
    IsoShape(value) &&
    (IsoShapeFields(value);
     var c := Fields(value);
     CalendarDateExists(c.year, c.month, c.day))
  }

  /** A calendar date text names an existing date of the years 100 to 9999. */
  lemma {:induction false} CalendarDateFields(value: string)
    requires IsCalendarDate(value)
    ensures Exists(Fields(value)) && 100 <= Fields(value).year <= 9999
    ensures FullYear(Fields(value).year) == Fields(value).year
  {
    IsoShapeFields(value);
    var c := Fields(value);
    CalendarDateExistsIff(c.year, c.month, c.day);
  }

  /** A printed existing date is a calendar date text exactly when the year has four digits. */
  lemma PrintedIsCalendarDate(c: Civil)
    requires Exists(c)
    ensures IsCalendarDate(Ymd(c.year, c.month, c.day)) <==> 1000 <= c.year <= 9999
  {
    var v := Ymd(c.year, c.month, c.day);
    assert Pow10(3) == 1000 && Pow10(4) == 10000;
    if c.year < 0 {
      assert v[0] == '-';
      if |v| == 10 { assert v[..4][0] == '-'; }
    } else {
      var y := Numeral(c.year);
      assert v[..|y|] == y;
      if 1000 <= c.year <= 9999 {
        NumeralLength(c.year, 4);
        assert v[5..7] == Pad2(c.month) && v[8..] == Pad2(c.day);
        IsoShapeFields(v);
        CalendarDateExistsIff(c.year, c.month, c.day);
      } else if |v| == 10 {
        assert |y| == 4;
        NumberBelow(y);
        LeadingDigit(y);
      }
    }
  }

  /** Printing the fields of a calendar date gives its text back exactly when the year is 1000 or later. */
  lemma {:induction false} CalendarDateReprints(value: string)
    requires IsCalendarDate(value)
    ensures Ymd(Fields(value).year, Fields(value).month, Fields(value).day) == value <==> Fields(value).year >= 1000
  {
    hide CalendarDateExists, Exists, Fields;
    CalendarDateFields(value);
    var c := Fields(value);
    if c.year < 1000 {
      PrintedIsCalendarDate(c);
    } else {
      IsoShapeFields(value);
      assert Pow10(3) == 1000 && Pow10(4) == 10000;
      NumeralLength(c.year, 4);
      DigitsDetermined(value[..4], Numeral(c.year));
      DigitsDetermined(value[5..7], Pad2(c.month));
      DigitsDetermined(value[8..], Pad2(c.day));
    }
  }

  // ---------- Day arithmetic ----------

  function AddCalendarDays(value: string, days: int): string
    requires IsDateText(value)
  {
    var c := Fields(value);
    YmdOf(DateUtc(c.year, c.month - 1, c.day + days))
  }

  /** The day number moves by exactly `days`, across months, leap years and centuries. */
  lemma {:induction false} AddDaysMovesDayNumber(value: string, days: int)
    requires IsCalendarDate(value)
    ensures var d := DayOf(Fields(value)) + days;
            AddCalendarDays(value, days) == (if -MAX_DAY <= d <= MAX_DAY then YmdOf(Some(d)) else INVALID)
  {
    CalendarDateFields(value);
    AddDaysToExisting(value, days);
  }

  lemma {:induction false} AddDaysToExisting(value: string, days: int)
    requires IsDateText(value) && Exists(Fields(value))
    ensures var c := Fields(value); var d := DayOf(c.(year := FullYear(c.year))) + days;
            AddCalendarDays(value, days) == (if -MAX_DAY <= d <= MAX_DAY then YmdOf(Some(d)) else INVALID)
  {
    hide DayFromYear, DaysBeforeMonth, CivilOf, IsDateText, Ymd;
    var c := Fields(value);
    var y := FullYear(c.year);
    assert MakeDay(y, c.month - 1, c.day + days) == DayOf(Civil(y, c.month, c.day)) + days;
  }

  /** The result is again a calendar date exactly when it falls in a year of four digits. */
  lemma {:induction false} AddDaysStaysCalendarDate(value: string, days: int)
    requires IsCalendarDate(value)
    requires -MAX_DAY <= DayOf(Fields(value)) + days <= MAX_DAY
    ensures var d := DayOf(Fields(value)) + days; var r := AddCalendarDays(value, days);
            && (IsCalendarDate(r) <==> 1000 <= CivilOf(d).year <= 9999)
            && (CivilOf(d).year >= 0 ==> IsDateText(r) && Fields(r) == CivilOf(d) && DayOf(Fields(r)) == d)
  {
    hide DayOf, CivilOf, IsCalendarDate, AddCalendarDays, Ymd;
    AddDaysMovesDayNumber(value, days);
    var d := DayOf(Fields(value)) + days;
    DayNumberOfCivil(d);
    PrintedIsCalendarDate(CivilOf(d));
    if CivilOf(d).year >= 0 { YmdFields(CivilOf(d).year, CivilOf(d).month, CivilOf(d).day); }
  }

  /** Adding nothing changes nothing, exactly from the year 1000 on. */
  lemma {:induction false} AddZeroDays(value: string)
    requires IsCalendarDate(value)
    ensures AddCalendarDays(value, 0) == value <==> Fields(value).year >= 1000
  {
    hide DayOf, CivilOf, IsCalendarDate, AddCalendarDays, Ymd;
    CalendarDateFields(value);
    AddDaysMovesDayNumber(value, 0);
    FourDigitYearInRange(Fields(value));
    CivilOfDayNumber(Fields(value));
    CalendarDateReprints(value);
  }

  /**
   * Adding `a` and then `b` days is adding their sum, exactly when the date in between is not before the year 100:
   * the years 0 to 99 are read back as 1900 to 1999, and the text of a negative year names another date.
   */
  lemma {:induction false} AddDaysAction(value: string, a: int, b: int)
    requires IsCalendarDate(value)
    requires -MAX_DAY <= DayOf(Fields(value)) + a <= MAX_DAY
    requires -MAX_DAY <= DayOf(Fields(value)) + a + b <= MAX_DAY
    ensures IsDateText(AddCalendarDays(value, a))
    ensures AddCalendarDays(AddCalendarDays(value, a), b) == AddCalendarDays(value, a + b)
            <==> CivilOf(DayOf(Fields(value)) + a).year >= 100
  {
    hide DayOf, CivilOf, IsCalendarDate, AddCalendarDays, YmdOf, DateUtc;
    var d := DayOf(Fields(value)) + a;
    AddDaysMovesDayNumber(value, a + b);
    AddDaysMovesDayNumber(value, a);
    AddDaysToPrinted(d, b);
  }

  /** What is read from the text of a day. */
  lemma ReadBack(d: int)
    ensures var c, text := CivilOf(d), YmdOf(Some(d));
            IsDateText(text) && Fields(text) == if c.year >= 0 then c else Civil(0, -c.year, c.month)
  {
    hide CivilOf, Ymd, IsDateText, Fields;
    DayNumberOfCivil(d);
    var c := CivilOf(d);
    if c.year < 0 { NegativeYmdFields(c.year, c.month, c.day); } else { YmdFields(c.year, c.month, c.day); }
  }

  /** The day counted from what is read is the right one exactly from the year 100 on. */
  lemma ReadBackDay(c: Civil, days: int)
    requires Exists(c)
    ensures var r := if c.year >= 0 then c else Civil(0, -c.year, c.month);
            MakeDay(FullYear(r.year), r.month - 1, r.day + days) == DayOf(c) + days <==> c.year >= 100
  {
    hide DayFromYear, DaysBeforeMonth, MakeDay, DayOf;
    if c.year < 0 {
      BeforeYearZero(c, days);
    } else {
      MakeDayIsDay(c.(year := FullYear(c.year)), days);
      if c.year < 100 { CenturyMoves(c); }
    }
  }

  /** Adding to the text of a day: right from the year 100 on, and wrong before. */
  lemma {:induction false} AddDaysToPrinted(d: int, b: int)
    requires -MAX_DAY <= d <= MAX_DAY && -MAX_DAY <= d + b <= MAX_DAY
    ensures IsDateText(YmdOf(Some(d)))
    ensures AddCalendarDays(YmdOf(Some(d)), b) == YmdOf(Some(d + b)) <==> CivilOf(d).year >= 100
  {
    hide DayOf, CivilOf, MakeDay, Ymd, IsDateText, Fields, Exists, YmdOf;
    ReadBack(d);
    DayNumberOfCivil(d);
    ReadBackDay(CivilOf(d), b);
    var r := Fields(YmdOf(Some(d)));
    var e := MakeDay(FullYear(r.year), r.month - 1, r.day + b);
    if YmdOf(Some(e)) == YmdOf(Some(d + b)) { YmdOfInjective(e, d + b); }
    InvalidIsNoDate(d + b);
    assert YmdOf(None) == INVALID by { NoDateIsInvalid(); }
  }

  lemma NoDateIsInvalid()
    ensures YmdOf(None) == INVALID
  {
  }

  lemma MakeDayIsDay(c: Civil, days: int)
    ensures MakeDay(c.year, c.month - 1, c.day + days) == DayOf(c) + days
  {
  }

  /** The date that is read instead of one before the year 0 lies after 1900. */
  lemma BeforeYearZero(c: Civil, days: int)
    requires Exists(c) && c.year < 0
    ensures MakeDay(1900, -c.year - 1, c.month + days) > DayOf(c) + days
  {
    hide DayFromYear;
    var ym, mn := 1900 + (-c.year - 1) / 12, (-c.year - 1) % 12;
    WithinYear(c);
    YearsApart(c.year + 1, 1900);
    YearsApart(1900, ym);
    MonthsApart(ym, 0, mn);
  }

  lemma InvalidIsNoDate(d: int)
    ensures YmdOf(Some(d)) != INVALID
  {
    hide CivilOf;
    DayNumberOfCivil(d);
    var y := IntText(CivilOf(d).year);
    assert y != "" && (y[0] == '-' || IsDigit(y[0]));
    assert YmdOf(Some(d))[0] == y[0];
  }

  // ---------- Years of three digits ----------

  /** Every date of the years 100 to 999 has a calendar date text that is printed back one digit shorter. */
  lemma {:induction false} ShortYearIsShortened(c: Civil)
    requires Exists(c) && 100 <= c.year <= 999
    ensures var printed := Ymd(c.year, c.month, c.day); var value := "0" + printed;
            && IsCalendarDate(value) && Fields(value) == c
            && AddCalendarDays(value, 0) == printed && !IsCalendarDate(printed)
  {
    ShortYearIsRead(c);
    hide CivilOf, AddCalendarDays, Fields, IsCalendarDate, DayOf, Ymd;
    PrintedIsCalendarDate(c);
    CivilOfDayNumber(c);
    FourDigitYearInRange(c);
    AddDaysMovesDayNumber("0" + Ymd(c.year, c.month, c.day), 0);
  }

  lemma {:induction false} ShortYearIsRead(c: Civil)
    requires Exists(c) && 100 <= c.year <= 999
    ensures var value := "0" + Ymd(c.year, c.month, c.day); IsCalendarDate(value) && Fields(value) == c
  {
    ShortParts(c);
    CalendarDateExistsIff(c.year, c.month, c.day);
    hide Exists, Fields, CalendarDateExists, Pad2, IsoShape;
    var y, m, d := IntText(c.year), Pad2(c.month), Pad2(c.day);
    assert Pow10(2) == 100 && Pow10(3) == 1000;
    NumeralLength(c.year, 3);
    ZeroInFront(y);
    PaddedParts(y, m, d);
    IsoShapeFields("0" + Ymd(c.year, c.month, c.day));
  }

  lemma ShortParts(c: Civil)
    requires Exists(c)
    ensures 1 <= c.month <= 12 && 1 <= c.day <= 31 && |Pad2(c.month)| == 2 && |Pad2(c.day)| == 2
  {
  }

  lemma PaddedParts(y: string, m: string, d: string)
    requires |y| == 3 && |m| == 2 && |d| == 2 && AllDigits(y) && AllDigits(m) && AllDigits(d)
    ensures var v := "0" + (y + "-" + m + "-" + d); IsoShape(v) && v[..4] == "0" + y && v[5..7] == m && v[8..] == d
  {
  }

  /** The last day of the year 999, for one: its text is a calendar date, and adding no days changes it. */
  lemma YearNineNineNine()
    ensures IsCalendarDate("0999-12-31") && Fields("0999-12-31") == Civil(999, 12, 31)
    ensures Ymd(999, 12, 31) == "999-12-31" == AddCalendarDays("0999-12-31", 0)
  {
    hide IsCalendarDate, Fields, AddCalendarDays, Ymd;
    LastDayText();
    ShortYearIsShortened(Civil(999, 12, 31));
  }

  lemma LastDayText()
    ensures Ymd(999, 12, 31) == "999-12-31" && "0" + "999-12-31" == "0999-12-31"
  {
    assert Numeral(9) == "9" && Numeral(99) == "99" && Numeral(999) == "999";
    assert Numeral(1) == "1" && Numeral(12) == "12" && Numeral(3) == "3" && Numeral(31) == "31";
    assert Pad2(12) == "12" && Pad2(31) == "31";
  }

  lemma NewYear(y: int)
    ensures DayOf(Civil(y, 12, 31)) + 1 == DayOf(Civil(y + 1, 1, 1))
  {
    hide DayFromYear;
    DayWithoutCarry(Civil(y, 12, 31));
    DayWithoutCarry(Civil(y + 1, 1, 1));
    TwelveMonths(y);
    YearLength(y);
    assert DaysBeforeMonth(y, 12) == DaysBeforeMonth(y, 11) + 31;
  }

  /** From the first day of the year 100 one day back and one day on leads to the year 2000. */
  lemma OneDayBackAndOn()
    ensures var value, before := "0" + Ymd(100, 1, 1), Ymd(99, 12, 31);
            && IsCalendarDate(value)
            && AddCalendarDays(value, -1) == before && IsDateText(before)
            && AddCalendarDays(before, 1) == Ymd(2000, 1, 1) != AddCalendarDays(value, 0)
  {
    hide CivilOf, AddCalendarDays, IsCalendarDate, DayOf, Ymd, IsDateText, Fields;
    var value, before := "0" + Ymd(100, 1, 1), Ymd(99, 12, 31);
    ShortYearIsShortened(Civil(100, 1, 1));
    AddDaysMovesDayNumber(value, -1);
    NewYear(99);
    CivilOfDayNumber(Civil(99, 12, 31));
    FourDigitYearInRange(Civil(99, 12, 31));
    YmdFields(99, 12, 31);
    AddDaysToExisting(before, 1);
    NewYear(1999);
    CivilOfDayNumber(Civil(2000, 1, 1));
    FourDigitYearInRange(Civil(2000, 1, 1));
    if Ymd(2000, 1, 1) == Ymd(100, 1, 1) { YmdInjective(Civil(2000, 1, 1), Civil(100, 1, 1)); }
  }
}
