/** Dates as people type and read them: 16/10/2026, 16-10-2026, 2026-10-16 and 16 Oct 2026. */
module TypedDate {
  import opened Text
  import opened Options
  import opened CivilDate
  import opened ColomboDate

  // ---------- Reading ----------

  /** Each run of white space becomes one blank. */
  function CollapseSpaces(s: string): string {
    if s == "" then ""
    else if !IsSpace(s[0]) then [s[0]] + CollapseSpaces(s[1..])
    else if |s| > 1 && IsSpace(s[1]) then CollapseSpaces(s[1..])
    else " " + CollapseSpaces(s[1..])
  }

  predicate AllLetters(s: string) { forall i | 0 <= i < |s| :: IsLetter(s[i]) }

  predicate IsLetter(c: char) { 'a' <= c <= 'z' || 'A' <= c <= 'Z' }

  /** Length of the longest front part that holds letters only. */
  function LetterRun(s: string): (n: nat)
    ensures n <= |s| && AllLetters(s[..n]) && (n < |s| ==> !IsLetter(s[n]))
  {
    if s == "" || !IsLetter(s[0]) then 0 else
      var n := 1 + LetterRun(s[1..]);
      assert forall i | 1 <= i < n :: s[i] == s[1..][i - 1];
      n
  }

  /** Number of at most two digits in front of a separator, and what follows the separator. */
  predicate ShortFront(text: string) {
    var i := DigitRun(text);
    1 <= i <= 2 && i < |text|
  }

  function FrontNumber(text: string): (n: nat)
    requires ShortFront(text)
    ensures n <= 99
  {
    ShortNumber(text[..DigitRun(text)], 2);
    assert Pow10(2) == 100;
    NumberOf(text[..DigitRun(text)])
  }

  function Separator(text: string): char
    requires ShortFront(text)
  {
    text[DigitRun(text)]
  }

  function AfterFront(text: string): string
    requires ShortFront(text)
  {
    text[DigitRun(text) + 1..]
  }

  predicate IsYear(text: string) { |text| == 4 && AllDigits(text) }

  function YearNumber(text: string): (n: nat)
    requires IsYear(text)
    ensures n <= 9999
  {
    ShortNumber(text, 4);
    assert Pow10(4) == 10000;
    NumberOf(text)
  }

  /** `^(\d{1,2})[/-](\d{1,2})[/-](\d{4})$`: day, month and year. */
  function MatchNumeric(text: string): Option<Civil> {
    if !(ShortFront(text) && Separator(text) in "/-") then None else
      var rest := AfterFront(text);
      if ShortFront(rest) && Separator(rest) in "/-" && IsYear(AfterFront(rest))
      then Some(Civil(YearNumber(AfterFront(rest)), FrontNumber(rest), FrontNumber(text)))
      else None
  }

  /** The number of a month name: the three-letter name, the long name or "sept"; 0 for any other word. */
  function MonthIndex(word: string): (m: int)
    ensures 0 <= m <= 12
  {
    if word == "sept" then 9 else NamedMonth(word, 0)
  }

  function NamedMonth(word: string, k: nat): (m: int)
    requires k <= 12
    ensures m == 0 || k < m <= 12
    decreases 12 - k
  {
    if k == 12 then 0
    else if word == Lower(MONTHS[k]) || word == LONG_MONTHS[k] then k + 1
    else NamedMonth(word, k + 1)
  }

  /** `^(\d{1,2}) ([A-Za-z]+) (\d{4})$`: day, month name and year. */
  function MatchNamed(text: string): Option<Civil> {
    if !(ShortFront(text) && Separator(text) == ' ') then None else
      var rest := AfterFront(text);
      var j := LetterRun(rest);
      if j >= 1 && j < |rest| && rest[j] == ' ' && IsYear(rest[j + 1..])
      then Some(Civil(YearNumber(rest[j + 1..]), MonthIndex(Lower(rest[..j])), FrontNumber(text)))
      else None
  }

  function Typed(text: string): Option<Civil> {
    if MatchNumeric(text).Some? then MatchNumeric(text)
    else if IsoShape(text) then
      IsoShapeFields(text);
      Some(Fields(text))
    else MatchNamed(text)
  }

  function ParseTypedDate(raw: string): Option<string> {
    var text := CollapseSpaces(Trim(raw));
    match Typed(text)
    case None => None
    case Some(c) =>
      if CalendarDateExists(c.year, c.month, c.day) then
        TypedBounds(text);
        Some(Ymd(c.year, c.month, c.day))
      else None
  }

  lemma ShortNumber(s: string, k: nat)
    requires AllDigits(s) && |s| <= k
    ensures NumberOf(s) < Pow10(k)
  {
    NumberBelow(s);
    Pow10Monotone(|s|, k);
  }

  /** A typed date never has more than four digits of year and two of month and day. */
  lemma TypedBounds(text: string)
    requires Typed(text).Some?
    ensures var c := Typed(text).value; 0 <= c.year <= 9999 && 0 <= c.month <= 99 && 0 <= c.day <= 99
  {
    if IsoShape(text) { IsoShapeFields(text); }
  }

  // ---------- Printing ----------

  function FormatCalendarDate(value: string): string {
    if !IsCalendarDate(value) then "" else
      CalendarDateFields(value);
      var c := Fields(value);
      Pad2(c.day) + " " + MONTHS[c.month - 1] + " " + IntText(c.year)
  }

  // ---------- What reading and printing have to do with each other ----------

  /** A text of visible characters and single inner blanks is left as it is by trimming and collapsing. */
  predicate Tidy(s: string) {
    s != "" && !IsSpace(s[0]) && !IsSpace(s[|s| - 1])
    && forall i | 0 <= i < |s| && IsSpace(s[i]) :: s[i] == ' ' && i + 1 < |s| && !IsSpace(s[i + 1])
  }

  lemma TidyStays(s: string)
    requires Tidy(s)
    ensures CollapseSpaces(Trim(s)) == s
  {
    CollapseTidy(s);
  }

  lemma {:induction false} CollapseTidy(s: string)
    requires forall i | 0 <= i < |s| && IsSpace(s[i]) :: s[i] == ' ' && i + 1 < |s| && !IsSpace(s[i + 1])
    ensures CollapseSpaces(s) == s
  {
    if s != "" {
      CollapseTidy(s[1..]);
      assert [s[0]] + s[1..] == s;
    }
  }

  lemma {:induction false} LetterRunIs(a: string, rest: string)
    requires AllLetters(a) && (rest != "" ==> !IsLetter(rest[0]))
    ensures LetterRun(a + rest) == |a|
  {
    if a == "" {
      assert a + rest == rest;
    } else {
      assert (a + rest)[0] == a[0];
      assert (a + rest)[1..] == a[1..] + rest;
      LetterRunIs(a[1..], rest);
    }
  }

  predicate AllVisible(s: string) { forall i | 0 <= i < |s| :: !IsSpace(s[i]) }

  lemma DigitsAreVisible(s: string)
    requires AllDigits(s)
    ensures AllVisible(s)
  {
  }

  lemma LettersAreVisible(s: string)
    requires AllLetters(s)
    ensures AllVisible(s)
  {
  }

  lemma TidyWord(s: string)
    requires s != "" && AllVisible(s)
    ensures Tidy(s)
  {
  }

  lemma TidyJoin(a: string, sep: char, b: string)
    requires a != "" && AllVisible(a) && Tidy(b) && (sep == ' ' || !IsSpace(sep))
    ensures Tidy(a + [sep] + b)
  {
    var s := a + [sep] + b;
    assert forall i | 0 <= i < |s| :: s[i] == (if i < |a| then a[i] else if i == |a| then sep else b[i - |a| - 1]);
  }

  /** The iso form 2026-10-16 reads as the date it names, and every calendar date text as its own date. */
  lemma {:induction false} IsoFormReads(value: string)
    requires IsoShape(value)
    ensures IsDateText(value)
    ensures var c := Fields(value);
            && ParseTypedDate(value) == ReadDate(c.year, c.month, c.day)
            && (IsCalendarDate(value) ==> ParseTypedDate(value) == Some(Ymd(c.year, c.month, c.day)))
  {
    hide CalendarDateExists, Ymd, Exists, Tidy;
    IsoShapeFields(value);
    var c := Fields(value);
    CalendarDateExistsIff(c.year, c.month, c.day);
    IsoShapeIsTidy(value);
    TidyStays(value);
    assert value == value[..4] + value[4..];
    DigitRunIs(value[..4], value[4..]);
  }

  lemma CalendarDateIsIso(value: string)
    requires IsCalendarDate(value)
    ensures IsoShape(value)
  {
  }

  lemma IsoShapeIsTidy(value: string)
    requires IsoShape(value)
    ensures Tidy(value)
  {
    DigitsAreVisible(value[..4]);
    DigitsAreVisible(value[5..7]);
    DigitsAreVisible(value[8..]);
    assert forall i | 0 <= i < 10 :: value[i] == (if i < 4 then value[..4][i] else if i == 4 || i == 7 then '-'
                                                  else if i < 7 then value[5..7][i - 5] else value[8..][i - 8]);
  }

  /** The lower-case names of a month, written out. */
  predicate IsNameOf(word: string, m: int)
    requires 1 <= m <= 12
  {
    match m
    case 1 => word in {"jan", "january"}
    case 2 => word in {"feb", "february"}
    case 3 => word in {"mar", "march"}
    case 4 => word in {"apr", "april"}
    case 5 => word == "may"
    case 6 => word in {"jun", "june"}
    case 7 => word in {"jul", "july"}
    case 8 => word in {"aug", "august"}
    case 9 => word in {"sep", "sept", "september"}
    case 10 => word in {"oct", "october"}
    case 11 => word in {"nov", "november"}
    case _ => word in {"dec", "december"}
  }

  /** The name that is printed, written out. */
  function ShortName(m: int): string
    requires 1 <= m <= 12
  {
    match m
    case 1 => "Jan"
    case 2 => "Feb"
    case 3 => "Mar"
    case 4 => "Apr"
    case 5 => "May"
    case 6 => "Jun"
    case 7 => "Jul"
    case 8 => "Aug"
    case 9 => "Sep"
    case 10 => "Oct"
    case 11 => "Nov"
    case _ => "Dec"
  }

  /** The names of a month in the program's tables. */
  predicate InTables(word: string, m: int)
    requires 1 <= m <= 12
  {
    word == Lower(MONTHS[m - 1]) || word == LONG_MONTHS[m - 1] || (m == 9 && word == "sept")
  }

  lemma LowerOfThree(a: string, b: string)
    requires |a| == 3 && |b| == 3 && forall i | 0 <= i < 3 :: LowerChar(a[i]) == b[i]
    ensures Lower(a) == b
  {
  }

  /** The tables hold these names and no others. */
  lemma TablesAreNames(word: string, m: int)
    requires 1 <= m <= 12
    ensures MONTHS[m - 1] == ShortName(m)
    ensures InTables(word, m) <==> IsNameOf(word, m)
  {
    hide Lower;
    match m
    case 1 => LowerOfThree("Jan", "jan");
    case 2 => LowerOfThree("Feb", "feb");
    case 3 => LowerOfThree("Mar", "mar");
    case 4 => LowerOfThree("Apr", "apr");
    case 5 => LowerOfThree("May", "may");
    case 6 => LowerOfThree("Jun", "jun");
    case 7 => LowerOfThree("Jul", "jul");
    case 8 => LowerOfThree("Aug", "aug");
    case 9 => LowerOfThree("Sep", "sep");
    case 10 => LowerOfThree("Oct", "oct");
    case 11 => LowerOfThree("Nov", "nov");
    case _ => LowerOfThree("Dec", "dec");
  }

  /** Every name of a month starts with its three-letter name. */
  lemma NameStarts(word: string, m: int)
    requires 1 <= m <= 12 && InTables(word, m)
    ensures |word| >= 3 && word[..3] == Lower(MONTHS[m - 1])
  {
    LongNameStarts(m);
    assert Lower(MONTHS[m - 1])[..3] == Lower(MONTHS[m - 1]);
    if m == 9 { assert Lower("Sep") == "sep" == "sept"[..3]; }
  }

  lemma LongNameStarts(m: int)
    requires 1 <= m <= 12
    ensures |MONTHS| == 12 && |MONTHS[m - 1]| == 3 && AllLetters(MONTHS[m - 1])
    ensures |LONG_MONTHS[m - 1]| >= 3 && LONG_MONTHS[m - 1][..3] == Lower(MONTHS[m - 1])
  {
    var a, b := MONTHS[m - 1], LONG_MONTHS[m - 1];
    assert Lower(a)[0] == b[0] && Lower(a)[1] == b[1] && Lower(a)[2] == b[2];
  }

  lemma ShortNamesDiffer(m: int, n: int)
    requires 1 <= m <= 12 && 1 <= n <= 12 && Lower(MONTHS[m - 1]) == Lower(MONTHS[n - 1])
    ensures m == n
  {
    var a, b := MONTHS[m - 1], MONTHS[n - 1];
    assert Lower(a)[0] == (a[0] as int + 32) as char && Lower(b)[0] == (b[0] as int + 32) as char;
    assert Lower(a)[1] == a[1] && Lower(b)[1] == b[1] && Lower(a)[2] == a[2] && Lower(b)[2] == b[2];
  }

  /** The number of a word is that of the month it names, by its short or its long name; other words have none. */
  lemma MonthIndexIff(word: string, m: int)
    requires 1 <= m <= 12
    ensures MonthIndex(word) == m <==> IsNameOf(word, m)
  {
    TablesAreNames(word, m);
    hide IsNameOf, InTables, NamedMonth, MONTHS, LONG_MONTHS;
    if word == "sept" {
      SeptIsSeptember();
      if InTables(word, m) { OneMonth(word, m, 9); }
    } else {
      NamedMonthIff(word, 0, m);
    }
  }

  lemma SeptIsSeptember()
    ensures InTables("sept", 9)
  {
  }

  lemma OneMonth(word: string, m: int, n: int)
    requires 1 <= m <= 12 && 1 <= n <= 12 && InTables(word, m) && InTables(word, n)
    ensures m == n
  {
    hide InTables, MONTHS, LONG_MONTHS, Lower;
    NameStarts(word, m);
    NameStarts(word, n);
    ShortNamesDiffer(m, n);
  }

  lemma {:induction false} NamedMonthIff(word: string, k: int, m: int)
    requires word != "sept" && 0 <= k <= 12 && 1 <= m <= 12
    ensures NamedMonth(word, k) == m <==> InTables(word, m) && k < m
    decreases 12 - k
  {
    hide MONTHS, LONG_MONTHS, Lower;
    if k < 12 {
      NamedMonthIff(word, k + 1, m);
      if InTables(word, m) && InTables(word, k + 1) { OneMonth(word, m, k + 1); }
    }
  }

  // ---------- The main results ----------

  /** Pieces that the matchers take apart: a short number, a separator and the rest. */
  lemma FrontOf(front: string, sep: char, rest: string)
    requires AllDigits(front) && 1 <= |front| <= 2 && !IsDigit(sep)
    ensures var text := front + [sep] + rest;
            && ShortFront(text) && FrontNumber(text) == NumberOf(front)
            && Separator(text) == sep && AfterFront(text) == rest
  {
    var text := front + [sep] + rest;
    assert text == front + ([sep] + rest);
    DigitRunIs(front, [sep] + rest);
    assert text[..|front|] == front;
  }

  lemma FourDigits(year: int)
    requires 0 <= year <= 9999
    ensures IsYear(IntText(year)) <==> year >= 1000
    ensures year >= 1000 ==> YearNumber(IntText(year)) == year
  {
    assert Pow10(3) == 1000 && Pow10(4) == 10000;
    if year >= 1000 { NumeralLength(year, 4); }
    if |Numeral(year)| == 4 { LeadingDigit(Numeral(year)); }
  }

  lemma TidyParts(a: string, first: char, b: string, second: char, c: string)
    requires a != "" && AllDigits(a) && b != "" && (AllDigits(b) || AllLetters(b)) && c != "" && AllDigits(c)
    requires first in " /-" && second in " /-"
    ensures var text := a + [first] + (b + [second] + c); CollapseSpaces(Trim(text)) == text
  {
    DigitsAreVisible(a);
    if AllDigits(b) { DigitsAreVisible(b); } else { LettersAreVisible(b); }
    DigitsAreVisible(c);
    TidyWord(c);
    TidyJoin(b, second, c);
    TidyJoin(a, first, b + [second] + c);
    TidyStays(a + [first] + (b + [second] + c));
  }

  /** The date that is read from these numbers, if there is one: it exists and is not of the years 0 to 99. */
  function ReadDate(year: nat, month: nat, day: nat): Option<string> {
    if year >= 100 && Exists(Civil(year, month, day)) then Some(Ymd(year, month, day)) else None
  }

  /** Day and month of one or two digits and a year of four, with slashes or dashes: 16/10/2026, 1-2-2026. */
  lemma NumericFormReads(day: string, first: char, month: string, second: char, year: string)
    requires AllDigits(day) && 1 <= |day| <= 2 && AllDigits(month) && 1 <= |month| <= 2 && IsYear(year)
    requires first in "/-" && second in "/-"
    ensures ParseTypedDate(day + [first] + (month + [second] + year))
            == ReadDate(NumberOf(year), NumberOf(month), NumberOf(day))
  {
    hide Ymd, CalendarDateExists, CollapseSpaces, Trim, IsoShape, MatchNamed, Tidy;
    var rest := month + [second] + year;
    FrontOf(day, first, rest);
    FrontOf(month, second, year);
    ShortNumber(day, 2);
    ShortNumber(month, 2);
    assert Pow10(2) == 100;
    CalendarDateExistsIff(YearNumber(year), NumberOf(month), NumberOf(day));
    TidyParts(day, first, month, second, year);
  }

  lemma BlankIsNotIso(day: string, rest: string)
    requires 1 <= |day| <= 2
    ensures !IsoShape(day + [' '] + rest)
  {
    var text := day + [' '] + rest;
    assert text[|day|] == ' ';
    if |text| >= 4 { assert text[..4][|day|] == ' '; }
  }

  lemma WordAndYear(word: string, year: string)
    requires AllLetters(word)
    ensures var rest := word + [' '] + year;
            LetterRun(rest) == |word| && rest[..|word|] == word && rest[|word|] == ' ' && rest[|word| + 1..] == year
  {
    var rest := word + [' '] + year;
    assert rest == word + ([' '] + year);
    LetterRunIs(word, [' '] + year);
  }

  /** What the matchers make of day, word and year. */
  lemma NamedFormMatches(day: string, word: string, year: string)
    requires AllDigits(day) && 1 <= |day| <= 2 && AllLetters(word) && word != "" && AllDigits(year) && year != ""
    ensures var text := day + [' '] + (word + [' '] + year);
            && CollapseSpaces(Trim(text)) == text
            && Typed(text) == if IsYear(year) then Some(Civil(YearNumber(year), MonthIndex(Lower(word)), NumberOf(day)))
                              else None
  {
    hide CollapseSpaces, Trim, IsoShape, MonthIndex, Lower, LetterRun, DigitRun, ShortFront, Separator, AfterFront;
    var rest := word + [' '] + year;
    FrontOf(day, ' ', rest);
    BlankIsNotIso(day, rest);
    WordAndYear(word, year);
    TidyParts(day, ' ', word, ' ', year);
  }

  /**
   * A day of one or two digits, a month's short or long name in any case, or "sept", and a year of four digits:
   * 16 Oct 2026, 1 september 2026. With another word or with a shorter or longer year nothing is read.
   */
  lemma {:induction false} NamedFormReads(day: string, word: string, year: string, m: int)
    requires AllDigits(day) && 1 <= |day| <= 2 && AllLetters(word) && word != "" && AllDigits(year) && year != ""
    requires 1 <= m <= 12
    ensures var read := ParseTypedDate(day + [' '] + (word + [' '] + year));
            && (IsYear(year) && IsNameOf(Lower(word), m) ==> read == ReadDate(NumberOf(year), m, NumberOf(day)))
            && (read.Some? ==> IsYear(year) && exists n :: 1 <= n <= 12 && IsNameOf(Lower(word), n))
  {
    hide Ymd, CalendarDateExists, CollapseSpaces, Trim, Typed, MonthIndex, Lower, IsNameOf;
    NamedFormMatches(day, word, year);
    MonthIndexIff(Lower(word), m);
    if IsYear(year) {
      var n := MonthIndex(Lower(word));
      if n > 0 { MonthIndexIff(Lower(word), n); }
      ShortNumber(day, 2);
      assert Pow10(2) == 100;
      CalendarDateExistsIff(YearNumber(year), n, NumberOf(day));
    }
  }

  /** What is printed reads as the date it names; with a year of fewer than four digits it is not read at all. */
  lemma {:induction false} PrintedFormReads(c: Civil)
    requires Exists(c) && 100 <= c.year <= 9999
    ensures ParseTypedDate(Pad2(c.day) + " " + MONTHS[c.month - 1] + " " + IntText(c.year))
            == if c.year >= 1000 then Some(Ymd(c.year, c.month, c.day)) else None
  {
    hide Ymd, ParseTypedDate, MONTHS, LONG_MONTHS, Lower;
    LongNameStarts(c.month);
    var name, year := MONTHS[c.month - 1], IntText(c.year);
    TablesAreNames(Lower(name), c.month);
    FourDigits(c.year);
    NamedFormReads(Pad2(c.day), name, year, c.month);
    assert Pad2(c.day) + " " + name + " " + year == Pad2(c.day) + [' '] + (name + [' '] + year);
  }

  /** A calendar date is printed as its two-digit day, the name of its month and its year, and nothing else is. */
  lemma {:induction false} FormatIs(value: string)
    ensures !IsCalendarDate(value) ==> FormatCalendarDate(value) == ""
    ensures IsCalendarDate(value) ==> 1 <= Fields(value).month <= 12 && |Pad2(Fields(value).day)| == 2
    ensures IsCalendarDate(value) ==>
              var c := Fields(value);
              FormatCalendarDate(value) == Pad2(c.day) + " " + ShortName(c.month) + " " + IntText(c.year)
  {
    if IsCalendarDate(value) {
      CalendarDateFields(value);
      ShortParts(Fields(value));
      TablesAreNames("", Fields(value).month);
      hide IsCalendarDate, Fields, Exists, MONTHS, ShortName, Pad2, IntText;
    }
  }

  /** Printing a calendar date and reading the text gives the date back, exactly from the year 1000 on. */
  lemma {:induction false} FormatThenParse(value: string)
    requires IsCalendarDate(value)
    ensures ParseTypedDate(FormatCalendarDate(value)) == Some(value) <==> Fields(value).year >= 1000
    ensures Fields(value).year < 1000 ==> ParseTypedDate(FormatCalendarDate(value)) == None
  {
    hide IsCalendarDate, Ymd, Exists, ParseTypedDate, MONTHS, Fields, IntText;
    CalendarDateFields(value);
    PrintedFormReads(Fields(value));
    CalendarDateReprints(value);
  }

  /**
   * Whatever was typed, a date that is read exists and is not of the years 0 to 99; from the year 1000 on the
   * result is a calendar date text and reading it again changes nothing.
   */
  lemma {:induction false} ParsedDateIsFixpoint(raw: string)
    requires ParseTypedDate(raw).Some?
    ensures var r := ParseTypedDate(raw).value;
            && IsDateText(r) && Exists(Fields(r)) && 100 <= Fields(r).year <= 9999
            && (IsCalendarDate(r) <==> Fields(r).year >= 1000)
            && (Fields(r).year >= 1000 ==> ParseTypedDate(r) == Some(r))
  {
    hide IsCalendarDate, Ymd, Typed, Exists, CalendarDateExists, Fields;
    var text := CollapseSpaces(Trim(raw));
    TypedBounds(text);
    var c := Typed(text).value;
    CalendarDateExistsIff(c.year, c.month, c.day);
    YmdFields(c.year, c.month, c.day);
    PrintedIsCalendarDate(c);
    if c.year >= 1000 {
      CalendarDateIsIso(Ymd(c.year, c.month, c.day));
      IsoFormReads(Ymd(c.year, c.month, c.day));
    }
  }

  /** The last day of the year 999 is printed as a text that is not read. */
  lemma YearNineNineNineIsNotRead()
    ensures ParseTypedDate(FormatCalendarDate("0999-12-31")) == None
  {
    YearNineNineNine();
    FormatThenParse("0999-12-31");
  }

  // ---------- White space around and between ----------

  lemma {:induction false} TrimStartSkips(front: string, s: string)
    requires AllSpaces(front)
    ensures TrimStart(front + s) == TrimStart(s)
  {
    if front == "" {
      assert front + s == s;
    } else {
      TrimStartSkips(front[1..], s);
      assert (front + s)[1..] == front[1..] + s && (front + s)[0] == front[0];
    }
  }

  lemma {:induction false} TrimEndSkips(s: string, back: string)
    requires AllSpaces(back)
    ensures TrimEnd(s + back) == TrimEnd(s)
  {
    if back == "" {
      assert s + back == s;
    } else {
      var n := |back| - 1;
      TrimEndSkips(s, back[..n]);
      assert (s + back)[..|s + back| - 1] == s + back[..n] && (s + back)[|s + back| - 1] == back[n];
    }
  }

  /** White space around a text with visible ends is cut off. */
  lemma TrimsAround(front: string, s: string, back: string)
    requires AllSpaces(front) && AllSpaces(back) && s != "" && !IsSpace(s[0]) && !IsSpace(s[|s| - 1])
    ensures Trim(front + s + back) == s
  {
    assert front + s + back == front + (s + back);
    TrimStartSkips(front, s + back);
    assert (s + back)[0] == s[0];
    TrimEndSkips(s, back);
  }

  /** A run of white space becomes one blank. */
  lemma {:induction false} CollapsesSpaces(spaces: string, rest: string)
    requires AllSpaces(spaces) && spaces != "" && rest != "" && !IsSpace(rest[0])
    ensures CollapseSpaces(spaces + rest) == " " + CollapseSpaces(rest)
    decreases |spaces|
  {
    if |spaces| > 1 {
      CollapsesSpaces(spaces[1..], rest);
      Front(spaces, rest);
      assert (spaces[1..] + rest)[0] == spaces[1];
      OneSpace(spaces[0], spaces[1..] + rest);
    } else {
      assert spaces + rest == [spaces[0]] + rest;
      OneSpace(spaces[0], rest);
    }
  }

  lemma OneSpace(c: char, rest: string)
    requires IsSpace(c) && rest != ""
    ensures CollapseSpaces([c] + rest) == if IsSpace(rest[0]) then CollapseSpaces(rest) else " " + CollapseSpaces(rest)
  {
    hide IsSpace;
    var s := [c] + rest;
    assert s[1..] == rest && s[0] == c && s[1] == rest[0];
  }

  lemma {:induction false} CollapsesRun(word: string, rest: string)
    requires AllVisible(word)
    ensures CollapseSpaces(word + rest) == word + CollapseSpaces(rest)
  {
    if word == "" {
      assert word + rest == rest && word + CollapseSpaces(rest) == CollapseSpaces(rest);
    } else {
      CollapsesRun(word[1..], rest);
      OneVisible(word[0], word[1..] + rest);
      hide CollapseSpaces;
      Front(word, rest);
      Front(word, CollapseSpaces(rest));
    }
  }

  lemma CollapsesWord(word: string, spaces: string, rest: string)
    requires AllVisible(word) && AllSpaces(spaces) && spaces != "" && rest != "" && !IsSpace(rest[0])
    ensures CollapseSpaces(word + spaces + rest) == word + " " + CollapseSpaces(rest)
  {
    CollapsesRun(word, spaces + rest);
    CollapsesSpaces(spaces, rest);
    hide CollapseSpaces;
    assert word + spaces + rest == word + (spaces + rest);
    assert word + " " + CollapseSpaces(rest) == word + (" " + CollapseSpaces(rest));
  }

  lemma Front(word: string, rest: string)
    requires word != ""
    ensures word + rest == [word[0]] + (word[1..] + rest)
  {
  }

  lemma OneVisible(c: char, rest: string)
    requires !IsSpace(c)
    ensures CollapseSpaces([c] + rest) == [c] + CollapseSpaces(rest)
  {
    assert ([c] + rest)[1..] == rest;
  }

  /** However much white space stands around and between day, word and year, what is read is the same. */
  lemma SpacesDoNotMatter(front: string, day: string, gap: string, word: string, gap': string, year: string,
                          back: string)
    requires AllSpaces(front) && AllSpaces(gap) && AllSpaces(gap') && AllSpaces(back) && gap != "" && gap' != ""
    requires AllDigits(day) && day != "" && AllLetters(word) && word != "" && AllDigits(year) && year != ""
    ensures ParseTypedDate(front + (day + gap + (word + gap' + year)) + back)
            == ParseTypedDate(day + [' '] + (word + [' '] + year))
  {
    DigitsAreVisible(day);
    LettersAreVisible(word);
    DigitsAreVisible(year);
    var rest, tidy := word + gap' + year, day + [' '] + (word + [' '] + year);
    var text := day + gap + rest;
    assert text[0] == day[0] && text[|text| - 1] == year[|year| - 1] && rest[0] == word[0];
    TrimsAround(front, text, back);
    CollapsesWord(day, gap, rest);
    CollapsesWord(word, gap', year);
    CollapseTidy(year);
    TidyParts(day, ' ', word, ' ', year);
    assert day + " " + (word + " " + year) == tidy;
    hide CollapseSpaces, Trim;
  }

  /** White space around a date changes nothing in any form. */
  lemma OuterSpacesDoNotMatter(front: string, text: string, back: string)
    requires AllSpaces(front) && AllSpaces(back) && text != "" && !IsSpace(text[0]) && !IsSpace(text[|text| - 1])
    ensures ParseTypedDate(front + text + back) == ParseTypedDate(text)
  {
    TrimsAround(front, text, back);
    TrimsAround("", text, "");
    assert "" + text + "" == text;
  }
}
