/** Meter readings: what may be typed, what may be saved and how a reading is shown in groups of three digits. */
module MeterReading {
  import opened Options
  import opened Text

  // ---------- The rules of the field ----------

  /** `(?:0|[1-9]\d*)` */
  predicate IsWhole(s: string) { s == "0" || (s != "" && AllDigits(s) && s[0] != '0') }

  /** The part between the first and the second dot, or nothing. */
  function FractionOf(text: string): string {
    var parts := Split(text, '.');
    if |parts| > 1 then parts[1] else ""
  }

  /** `^(?:0|[1-9]\d*)?(?:\.\d*)?$`, without the part behind the dot for meters that count whole units. */
  predicate DraftPattern(text: string, fractionDigits: nat) {
    var parts := Split(text, '.');
    && (parts[0] == "" || IsWhole(parts[0]))
    && (|parts| == 1 || (|parts| == 2 && fractionDigits > 0 && AllDigits(parts[1])))
  }

  datatype Draft = Draft(value: string, rejected: bool)

  /** `acceptReadingDraft` */
  function AcceptReadingDraft(current: string, incoming: string, fractionDigits: nat): Draft {
    if incoming == "" then Draft("", false)
    else if !DraftPattern(incoming, fractionDigits) then Draft(current, true)
    else if |FractionOf(incoming)| > fractionDigits then Draft(current, true)
    else Draft(incoming, false)
  }

  datatype FieldError = Missing | Unfinished | NotNumeric | WholeNumbersOnly | TooManyDecimals

  /** `^\d+\.$` */
  predicate EndsInDot(text: string) {
    var parts := Split(text, '.');
    |parts| == 2 && parts[0] != "" && AllDigits(parts[0]) && parts[1] == ""
  }

  /** `^(?:0|[1-9]\d*)(?:\.\d+)?$` */
  predicate ReadingPattern(text: string) {
    var parts := Split(text, '.');
    IsWhole(parts[0]) && (|parts| == 1 || (|parts| == 2 && parts[1] != "" && AllDigits(parts[1])))
  }

  /** `readingFieldError` */
  function ReadingFieldError(raw: string, fractionDigits: nat): Option<FieldError> {
    var text := Trim(raw);
    if text == "" then Some(Missing)
    else if fractionDigits > 0 && EndsInDot(text) then Some(Unfinished)
    else if !ReadingPattern(text) then Some(NotNumeric)
    else if |FractionOf(text)| > fractionDigits
    then Some(if fractionDigits == 0 then WholeNumbersOnly else TooManyDecimals)
    else None
  }

  // ---------- The same language, read key by key ----------

  /** Where a reading stands: nothing yet, a lone zero, a whole number, n digits behind the dot, or no reading. */
  datatype State = Empty | Zero | Whole | Fraction(n: nat) | Dead

  function Key(s: State, c: char, fractionDigits: nat): State {
    match s
    case Empty =>
      if c == '0' then Zero else if IsDigit(c) then Whole
      else if c == '.' && fractionDigits > 0 then Fraction(0) else Dead
    case Zero => if c == '.' && fractionDigits > 0 then Fraction(0) else Dead
    case Whole =>
      if IsDigit(c) then Whole else if c == '.' && fractionDigits > 0 then Fraction(0) else Dead
    case Fraction(n) => if IsDigit(c) && n < fractionDigits then Fraction(n + 1) else Dead
    case Dead => Dead
  }

  function Keys(text: string, fractionDigits: nat): State {
    if text == "" then Empty else Key(Keys(text[..|text| - 1], fractionDigits), text[|text| - 1], fractionDigits)
  }

  /** The field takes the text. */
  predicate IsAccepted(text: string, fractionDigits: nat) {
    AcceptReadingDraft("", text, fractionDigits) == Draft(text, false)
  }

  /** The parts of a text with one more character at its end. */
  function Snoc(parts: seq<string>, c: char, sep: char): seq<string>
    requires parts != []
  {
    if c == sep then parts + [""] else parts[..|parts| - 1] + [parts[|parts| - 1] + [c]]
  }

  lemma {:induction false} SplitSnoc(s: string, c: char, sep: char)
    ensures Split(s + [c], sep) == Snoc(Split(s, sep), c, sep)
  {
    if s == "" {
      assert s + [c] == [c] && [c][1..] == "";
      assert Split("", sep) == [""] && "" + [c] == [c] == [c] + "";
    } else {
      SplitSnoc(s[1..], c, sep);
      assert (s + [c])[1..] == s[1..] + [c];
      SnocBehindFront(s[0], Split(s[1..], sep), c, sep);
    }
  }

  lemma SnocBehindFront(x: char, p: seq<string>, c: char, sep: char)
    requires p != []
    ensures x == sep ==> [""] + Snoc(p, c, sep) == Snoc([""] + p, c, sep)
    ensures x != sep ==> [[x] + Snoc(p, c, sep)[0]] + Snoc(p, c, sep)[1..] == Snoc([[x] + p[0]] + p[1..], c, sep)
  {
    var n := |p| - 1;
    var q := if x == sep then [""] + p else [[x] + p[0]] + p[1..];
    if c != sep {
      assert x == sep ==> q[..|q| - 1] == [""] + p[..n];
      if x != sep && n == 0 {
        assert [x] + (p[0] + [c]) == [x] + p[0] + [c];
      } else if x != sep {
        assert q[..n] == [[x] + p[0]] + p[1..n];
        assert Snoc(p, c, sep)[1..] == p[1..n] + [p[n] + [c]];
      }
    } else {
      assert x != sep ==> Snoc(p, c, sep)[1..] == p[1..] + [""];
    }
  }

  /** What each state says about the parts around the dots. */
  ghost predicate Describes(s: State, text: string, parts: seq<string>, fractionDigits: nat)
    requires parts != []
  {
    match s
    case Empty => text == ""
    case Zero => parts == ["0"]
    case Whole => |parts| == 1 && IsWhole(parts[0]) && parts[0] != "0"
    case Fraction(n) =>
      fractionDigits > 0 && |parts| == 2 && (parts[0] == "" || IsWhole(parts[0]))
      && AllDigits(parts[1]) && |parts[1]| == n <= fractionDigits
    case Dead =>
      !((parts[0] == "" || IsWhole(parts[0])) &&
        (|parts| == 1 || (|parts| == 2 && fractionDigits > 0 && AllDigits(parts[1]) && |parts[1]| <= fractionDigits)))
  }

  lemma {:induction false} KeysDescribe(text: string, fractionDigits: nat)
    ensures Describes(Keys(text, fractionDigits), text, Split(text, '.'), fractionDigits)
  {
    if text != "" {
      var n := |text| - 1;
      KeysDescribe(text[..n], fractionDigits);
      SplitSnoc(text[..n], text[n], '.');
      assert text == text[..n] + [text[n]];
      KeyDescribes(Keys(text[..n], fractionDigits), text[..n], Split(text[..n], '.'), text[n], fractionDigits);
    }
  }

  lemma KeyDescribes(s: State, text: string, parts: seq<string>, c: char, fractionDigits: nat)
    requires parts != [] && (text == "" ==> parts == [""]) && Describes(s, text, parts, fractionDigits)
    ensures Describes(Key(s, c, fractionDigits), text + [c],
                      Snoc(parts, c, '.'), fractionDigits)
  {
    var last := parts[|parts| - 1];
    assert (last + [c])[..|last|] == last && (last + [c])[|last|] == c;
    if s == Empty { assert "" + [c] == [c]; }
    if s == Dead && c != '.' { DeadStaysDead(parts, c, fractionDigits); }
  }

  lemma DeadStaysDead(parts: seq<string>, c: char, fractionDigits: nat)
    requires parts != [] && Describes(Dead, "", parts, fractionDigits) && c != '.'
    ensures Describes(Dead, "", Snoc(parts, c, '.'), fractionDigits)
  {
    var last := parts[|parts| - 1];
    assert (last + [c])[..|last|] == last;
  }

  /** The field takes exactly the texts that the key-by-key reading does not lose. */
  lemma AcceptedIffAlive(text: string, fractionDigits: nat)
    ensures IsAccepted(text, fractionDigits) <==> Keys(text, fractionDigits) != Dead
  {
    KeysDescribe(text, fractionDigits);
  }

  // ---------- Editing ----------

  /** The draft after a row of edits of the field, from an empty field. */
  function Edited(incoming: seq<string>, fractionDigits: nat): string {
    if incoming == [] then "" else
      var before := Edited(incoming[..|incoming| - 1], fractionDigits);
      AcceptReadingDraft(before, incoming[|incoming| - 1], fractionDigits).value
  }

  /** An edit that the automaton does not lose becomes the draft; any other is rejected and the draft stays as it is. */
  lemma EditDecides(current: string, incoming: string, fractionDigits: nat)
    ensures AcceptReadingDraft(current, incoming, fractionDigits)
            == if Keys(incoming, fractionDigits) != Dead then Draft(incoming, false) else Draft(current, true)
  {
    KeysDescribe(incoming, fractionDigits);
  }

  /** Whatever is typed, pasted or deleted, the draft stays in the language of the field. */
  lemma {:induction false} EditsStayAccepted(incoming: seq<string>, fractionDigits: nat)
    ensures IsAccepted(Edited(incoming, fractionDigits), fractionDigits)
  {
    if incoming != [] { EditsStayAccepted(incoming[..|incoming| - 1], fractionDigits); }
  }

  /** Typing a text key by key: each key is appended to the draft that is there. */
  function TypedKeys(text: string, fractionDigits: nat): string {
    if text == "" then "" else
      var before := TypedKeys(text[..|text| - 1], fractionDigits);
      AcceptReadingDraft(before, before + [text[|text| - 1]], fractionDigits).value
  }

  /** Every front part of an accepted text is accepted. */
  lemma PrefixAccepted(text: string, k: nat, fractionDigits: nat)
    requires IsAccepted(text, fractionDigits) && k <= |text|
    ensures IsAccepted(text[..k], fractionDigits)
  {
    AcceptedIffAlive(text, fractionDigits);
    AcceptedIffAlive(text[..k], fractionDigits);
    AliveBefore(text, k, fractionDigits);
  }

  lemma {:induction false} AliveBefore(text: string, k: nat, fractionDigits: nat)
    requires k <= |text| && Keys(text, fractionDigits) != Dead
    ensures Keys(text[..k], fractionDigits) != Dead
  {
    if k < |text| {
      AliveBefore(text[..|text| - 1], k, fractionDigits);
      assert text[..|text| - 1][..k] == text[..k];
    } else {
      assert text[..k] == text;
    }
  }

  /** A text can be typed key by key exactly when the field accepts it. */
  lemma {:induction false} TypableIffAccepted(text: string, fractionDigits: nat)
    ensures TypedKeys(text, fractionDigits) == text <==> IsAccepted(text, fractionDigits)
  {
    if text != "" {
      var n := |text| - 1;
      TypedIsAccepted(text, fractionDigits);
      if IsAccepted(text, fractionDigits) {
        PrefixAccepted(text, n, fractionDigits);
        TypableIffAccepted(text[..n], fractionDigits);
        assert text == text[..n] + [text[n]];
      }
    }
  }

  lemma {:induction false} TypedIsAccepted(text: string, fractionDigits: nat)
    ensures IsAccepted(TypedKeys(text, fractionDigits), fractionDigits)
  {
    if text != "" { TypedIsAccepted(text[..|text| - 1], fractionDigits); }
  }

  /** A reading with so many digits behind the dot at most: accepted, not empty, with digits at both ends. */
  predicate IsReading(text: string, fractionDigits: nat) {
    IsAccepted(text, fractionDigits) && text != "" && text[0] != '.' && text[|text| - 1] != '.'
  }

  /** A text may be saved exactly when it is a reading, without the white space around it. */
  lemma SavableIffFinishedDraft(raw: string, fractionDigits: nat)
    ensures ReadingFieldError(raw, fractionDigits) == None <==> IsReading(Trim(raw), fractionDigits)
  {
    PatternIs(Trim(raw), fractionDigits);
  }

  lemma PatternIs(text: string, fractionDigits: nat)
    ensures IsReading(text, fractionDigits) <==>
              text != "" && ReadingPattern(text) && |FractionOf(text)| <= fractionDigits
    ensures text != "" && ReadingPattern(text) ==> !EndsInDot(text)
  {
    if text != "" {
      FirstPart(text);
      var n := |text| - 1;
      SplitSnoc(text[..n], text[n], '.');
      assert text == text[..n] + [text[n]];
    }
  }

  /**
   * What is wrong otherwise: nothing was entered; digits end in a dot that starts a fraction; the text is no
   * reading with any number of digits; or it is one, with more digits than the meter has.
   */
  lemma ErrorTold(raw: string, fractionDigits: nat)
    ensures var text, error := Trim(raw), ReadingFieldError(raw, fractionDigits);
            var n := |text| - 1;
            var unfinished := fractionDigits > 0 && |text| >= 2 && AllDigits(text[..n]) && text[n] == '.';
            && (error == Some(Missing) <==> text == "")
            && (error == Some(Unfinished) <==> unfinished)
            && (error == Some(NotNumeric) <==> text != "" && !unfinished && !IsReading(text, |text|))
            && (error == Some(WholeNumbersOnly)
                <==> fractionDigits == 0 && IsReading(text, |text|) && !IsReading(text, 0))
            && (error == Some(TooManyDecimals)
                <==> fractionDigits > 0 && IsReading(text, |text|) && !IsReading(text, fractionDigits))
  {
    var text := Trim(raw);
    PatternIs(text, fractionDigits);
    PatternIs(text, |text|);
    FractionIsShort(text);
    if text != "" { DotAtEnd(text); }
    hide Trim, IsReading, ReadingPattern, EndsInDot, FractionOf;
  }

  lemma {:induction false} FractionIsShort(text: string)
    ensures |FractionOf(text)| <= |text|
  {
    PartsAreShort(text);
  }

  lemma {:induction false} PartsAreShort(text: string)
    ensures forall k | 0 <= k < |Split(text, '.')| :: |Split(text, '.')[k]| <= |text|
  {
    if text != "" { PartsAreShort(text[1..]); }
  }

  lemma DotAtEnd(text: string)
    requires text != ""
    ensures EndsInDot(text) <==> |text| >= 2 && AllDigits(text[..|text| - 1]) && text[|text| - 1] == '.'
  {
    var n := |text| - 1;
    SplitSnoc(text[..n], text[n], '.');
    assert text == text[..n] + [text[n]];
    var front := Split(text[..n], '.');
    if AllDigits(text[..n]) && text[n] == '.' { SplitWithoutSeparator(text[..n], '.'); }
    if EndsInDot(text) { SplitJoins(text[..n]); }
  }

  lemma FirstPart(text: string)
    requires text != ""
    ensures Split(text, '.')[0] == "" <==> text[0] == '.'
  {
  }

  // ---------- Showing ----------

  predicate IsWord(c: char) { IsDigit(c) || 'a' <= c <= 'z' || 'A' <= c <= 'Z' || c == '_' }

  /** `\B(?=(\d{3})+(?!\d))`: inside a word, in front of a run of digits whose length is a multiple of three. */
  predicate CommaAt(s: string, i: nat)
    requires i < |s|
  {
    i > 0 && IsWord(s[i - 1]) && DigitRun(s[i..]) > 0 && DigitRun(s[i..]) % 3 == 0
  }

  function GroupFrom(s: string, i: nat): string
    requires i <= |s|
    decreases |s| - i
  {
    if i == |s| then "" else (if CommaAt(s, i) then "," else "") + [s[i]] + GroupFrom(s, i + 1)
  }

  /** `groupReading` */
  function GroupReading(raw: string): string {
    if raw == "" then "" else
      var parts := Split(raw, '.');
      var grouped := GroupFrom(parts[0], 0);
      if |parts| == 1 then grouped else grouped + "." + parts[1]
  }

  function DeleteCommas(s: string): string {
    if s == "" then "" else Shown(s[0]) + DeleteCommas(s[1..])
  }

  function Shown(c: char): string { if c == ',' then "" else [c] }

  lemma DeleteBehind(c: char, rest: string)
    ensures DeleteCommas([c] + rest) == if c == ',' then DeleteCommas(rest) else [c] + DeleteCommas(rest)
  {
    assert ([c] + rest)[1..] == rest;
    assert "" + DeleteCommas(rest) == DeleteCommas(rest);
  }

  function Concat(parts: seq<string>): string {
    if parts == [] then "" else parts[0] + Concat(parts[1..])
  }

  /** A first group of the given length, and groups of exactly three digits behind it. */
  ghost predicate InThrees(groups: seq<string>, first: nat, digits: string) {
    && groups != [] && |groups[0]| == first
    && (forall k | 1 <= k < |groups| :: |groups[k]| == 3)
    && Concat(groups) == digits
  }

  /** One more digit in front lengthens the first group. */
  lemma DigitInFront(c: char, rest: string, first: nat, digits: string)
    requires c != ',' && InThrees(Split(rest, ','), first, digits)
    ensures InThrees(Split([c] + rest, ','), first + 1, [c] + digits)
  {
    var groups := Split(rest, ',');
    assert ([c] + rest)[1..] == rest;
    var longer := [[c] + groups[0]] + groups[1..];
    assert Split([c] + rest, ',') == longer;
    assert longer[1..] == groups[1..];
    assert [c] + groups[0] + Concat(groups[1..]) == [c] + (groups[0] + Concat(groups[1..]));
  }

  /** A comma in front of a full group of three starts an empty one. */
  lemma CommaInFront(rest: string, digits: string)
    requires InThrees(Split(rest, ','), 3, digits)
    ensures InThrees(Split("," + rest, ','), 0, digits)
  {
    assert ("," + rest)[1..] == rest;
    assert ([""] + Split(rest, ','))[1..] == Split(rest, ',');
    assert "" + digits == digits;
  }

  lemma NoDigits()
    ensures InThrees(Split("", ','), 0, "")
  {
    assert [""][1..] == [];
  }

  /** In a text of digits, a comma stands in front of every later place that is a multiple of three from the end. */
  lemma CommaInDigits(s: string, i: nat)
    requires AllDigits(s) && 1 <= i < |s|
    ensures s[i] != ',' && [s[i]] + s[i + 1..] == s[i..]
    ensures GroupFrom(s, i) == (if (|s| - i) % 3 == 0 then "," + ([s[i]] + GroupFrom(s, i + 1))
                                else [s[i]] + GroupFrom(s, i + 1))
  {
    DigitRunIs(s[i..], "");
    assert s[i..] + "" == s[i..];
    assert CommaAt(s, i) <==> (|s| - i) % 3 == 0;
    hide CommaAt;
    assert "" + [s[i]] == [s[i]];
    assert "," + [s[i]] + GroupFrom(s, i + 1) == "," + ([s[i]] + GroupFrom(s, i + 1));
  }

  lemma OneMoreThird(n: nat)
    requires n >= 1
    ensures n % 3 == (if (n - 1) % 3 == 2 then 0 else (n - 1) % 3 + 1)
  {
  }

  /** The groups of a text of digits from a later place on: the first one has `rest % 3` digits. */
  lemma {:induction false} GroupsFrom(s: string, i: nat)
    requires AllDigits(s) && 1 <= i <= |s|
    ensures InThrees(Split(GroupFrom(s, i), ','), (|s| - i) % 3, s[i..])
    decreases |s| - i
  {
    if i == |s| {
      hide InThrees, Split;
      NoDigits();
      assert s[i..] == "";
    } else {
      hide InThrees, Split, GroupFrom, DigitRun;
      GroupsFrom(s, i + 1);
      CommaInDigits(s, i);
      OneMoreThird(|s| - i);
      DigitInFront(s[i], GroupFrom(s, i + 1), (|s| - i - 1) % 3, s[i + 1..]);
      if (|s| - i) % 3 == 0 { CommaInFront([s[i]] + GroupFrom(s, i + 1), s[i..]); }
    }
  }

  lemma NoCommaAtStart(s: string)
    requires s != ""
    ensures GroupFrom(s, 0) == [s[0]] + GroupFrom(s, 1)
  {
  }

  /** The whole part is cut into a first group of one to three digits and groups of exactly three behind it. */
  lemma WholeInGroups(s: string)
    requires AllDigits(s) && s != ""
    ensures InThrees(Split(GroupFrom(s, 0), ','), (|s| - 1) % 3 + 1, s)
  {
    hide InThrees, Split, DigitRun, IsWord;
    GroupsFrom(s, 1);
    NoCommaAtStart(s);
    hide GroupFrom;
    assert IsDigit(s[0]);
    DigitInFront(s[0], GroupFrom(s, 1), (|s| - 1) % 3, s[1..]);
    assert s == [s[0]] + s[1..];
  }

  /** Deleting the commas of grouped digits gives the digits, whatever stands behind them. */
  lemma {:induction false} DeleteFromGrouped(s: string, i: nat, rest: string)
    requires i <= |s| && ',' !in s
    ensures DeleteCommas(GroupFrom(s, i) + rest) == s[i..] + DeleteCommas(rest)
    decreases |s| - i
  {
    hide DeleteCommas, CommaAt;
    if i == |s| {
      assert GroupFrom(s, i) + rest == rest && s[i..] == "";
    } else {
      DeleteFromGrouped(s, i + 1, rest);
      GroupFromStep(s, i, rest);
      DeleteStep(s[i], GroupFrom(s, i + 1) + rest, s[i + 1..] + DeleteCommas(rest));
      CutBehind(s, i, DeleteCommas(rest));
    }
  }

  lemma DeleteStep(c: char, tail: string, digits: string)
    requires c != ',' && DeleteCommas(tail) == digits
    ensures DeleteCommas([c] + tail) == [c] + digits == DeleteCommas("," + ([c] + tail))
  {
    DeleteBehind(c, tail);
    DeleteBehind(',', [c] + tail);
  }

  lemma CutBehind(s: string, i: nat, rest: string)
    requires i < |s|
    ensures [s[i]] + (s[i + 1..] + rest) == s[i..] + rest
  {
  }

  lemma GroupFromStep(s: string, i: nat, rest: string)
    requires i < |s|
    ensures var tail := GroupFrom(s, i + 1) + rest;
            GroupFrom(s, i) + rest == if CommaAt(s, i) then "," + ([s[i]] + tail) else [s[i]] + tail
  {
    hide CommaAt;
  }

  lemma {:induction false} NothingToDelete(s: string)
    requires ',' !in s
    ensures DeleteCommas(s) == s
  {
    if s != "" { NothingToDelete(s[1..]); }
  }

  /** A text that is one part, or two parts around a dot, is put together again from them. */
  lemma {:induction false} SplitJoins(text: string)
    ensures var parts := Split(text, '.');
            && (|parts| == 1 ==> text == parts[0])
            && (|parts| == 2 ==> text == parts[0] + "." + parts[1])
  {
    if text != "" { SplitJoins(text[1..]); }
  }

  /** An accepted draft is one part, or two around a dot, and no part has a comma. */
  lemma AcceptedParts(draft: string, fractionDigits: nat)
    requires IsAccepted(draft, fractionDigits) && draft != ""
    ensures var parts := Split(draft, '.');
            && |parts| <= 2 && ',' !in parts[0]
            && (|parts| == 2 ==> ',' !in "." + parts[1])
            && draft == parts[0] + (if |parts| == 2 then "." + parts[1] else "")
  {
    hide Split;
    SplitJoins(draft);
    var parts := Split(draft, '.');
    assert parts[0] + "" == parts[0];
    if |parts| == 2 { assert parts[0] + "." + parts[1] == parts[0] + ("." + parts[1]); }
  }

  /** The grouped whole part and what stands behind it. */
  lemma GroupReadingParts(draft: string)
    requires draft != "" && |Split(draft, '.')| <= 2
    ensures var parts := Split(draft, '.');
            GroupReading(draft) == GroupFrom(parts[0], 0) + (if |parts| == 2 then "." + parts[1] else "")
  {
    hide Split, GroupFrom;
    var parts := Split(draft, '.');
    var grouped := GroupFrom(parts[0], 0);
    assert grouped + "" == grouped;
    if |parts| == 2 { assert grouped + "." + parts[1] == grouped + ("." + parts[1]); }
  }

  /** Deleting the commas gives every accepted draft back. */
  lemma GroupingIsUndone(draft: string, fractionDigits: nat)
    requires IsAccepted(draft, fractionDigits)
    ensures DeleteCommas(GroupReading(draft)) == draft
  {
    if draft != "" {
      hide DeleteCommas, GroupFrom, Split, IsAccepted, GroupReading;
      AcceptedParts(draft, fractionDigits);
      GroupReadingParts(draft);
      var parts := Split(draft, '.');
      DeleteFromJoined(parts[0], if |parts| == 2 then "." + parts[1] else "");
    }
  }

  /** Only the whole part is grouped: the dot and what stands behind it are shown as they are. */
  lemma FractionIsShown(draft: string)
    requires draft != "" && |Split(draft, '.')| <= 2
    ensures var parts := Split(draft, '.');
            && (|parts| == 1 ==> GroupReading(draft) == GroupFrom(draft, 0))
            && (|parts| == 2 ==> GroupReading(draft) == GroupFrom(parts[0], 0) + "." + parts[1])
            && (|parts| == 2 ==> draft == parts[0] + "." + parts[1])
  {
    SplitJoins(draft);
  }

  lemma DeleteFromJoined(whole: string, rest: string)
    requires ',' !in whole && ',' !in rest
    ensures DeleteCommas(GroupFrom(whole, 0) + rest) == whole + rest
  {
    hide DeleteCommas, GroupFrom;
    DeleteFromGrouped(whole, 0, rest);
    NothingToDelete(rest);
    assert whole[0..] == whole;
  }
}
