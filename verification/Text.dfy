/** Strings as the web client handles them: decimal numerals, splitting, trimming and plain order. */
module Text {

  predicate IsDigit(c: char) { '0' <= c <= '9' }

  predicate AllDigits(s: string) { forall i | 0 <= i < |s| :: IsDigit(s[i]) }

  /** `Number(s)` of a text that holds digits only; the empty text counts as zero. */
  function NumberOf(s: string): nat
    requires AllDigits(s)
  {
    if s == "" then 0 else 10 * NumberOf(s[..|s| - 1]) + (s[|s| - 1] as int - '0' as int)
  }

  function DigitChar(d: nat): (c: char)
    requires d < 10
    ensures IsDigit(c) && c as int - '0' as int == d
  {
    ('0' as int + d) as char
  }

  /** `String(n)` of a whole number that is not negative. */
  function Numeral(n: nat): (s: string)
    ensures AllDigits(s) && NumberOf(s) == n
    ensures s != "" && (|s| > 1 ==> s[0] != '0')
    ensures n == 0 ==> s == "0"
  {
    if n < 10 then [DigitChar(n)] else
      var front := Numeral(n / 10);
      assert front[0] != '0' by { if |front| == 1 { assert front == front[..0] + [front[0]]; } }
      front + [DigitChar(n % 10)]
  }

  /** A numeral is the only text of its length with its value. */
  lemma {:induction false} DigitsDetermined(a: string, b: string)
    requires AllDigits(a) && AllDigits(b) && |a| == |b|
    requires NumberOf(a) == NumberOf(b)
    ensures a == b
  {
    if a != "" {
      var n := |a| - 1;
      DigitsDetermined(a[..n], b[..n]);
      assert a == a[..n] + [a[n]] && b == b[..n] + [b[n]];
    }
  }

  lemma {:induction false} ZeroInFront(s: string)
    requires AllDigits(s)
    ensures AllDigits("0" + s) && NumberOf("0" + s) == NumberOf(s)
  {
    var n := |s|;
    if s == "" {
      assert "0" + s == "0" && "0"[..0] == "";
    } else {
      ZeroInFront(s[..n - 1]);
      assert ("0" + s)[..n] == "0" + s[..n - 1];
    }
  }

  /** Ten raised to the number of digits bounds the value. */
  function Pow10(n: nat): (p: nat)
    ensures p >= 1
  {
    if n == 0 then 1 else 10 * Pow10(n - 1)
  }

  lemma {:induction false} NumberBelow(s: string)
    requires AllDigits(s)
    ensures NumberOf(s) < Pow10(|s|)
  {
    if s != "" { NumberBelow(s[..|s| - 1]); }
  }

  lemma {:induction false} LeadingDigit(s: string)
    requires AllDigits(s) && s != "" && s[0] != '0'
    ensures NumberOf(s) >= Pow10(|s| - 1)
  {
    if |s| > 1 { LeadingDigit(s[..|s| - 1]); }
  }

  /** The numeral of n has k digits exactly when n lies between two powers of ten. */
  lemma NumeralLength(n: nat, k: nat)
    requires k >= 1 && (k == 1 || Pow10(k - 1) <= n) && n < Pow10(k)
    ensures |Numeral(n)| == k
  {
    var s := Numeral(n);
    NumberBelow(s);
    if |s| > 1 { LeadingDigit(s); }
    if |s| < k { Pow10Monotone(|s|, k - 1); }
    if |s| > k { Pow10Monotone(k, |s| - 1); }
  }

  lemma {:induction false} Pow10Monotone(a: nat, b: nat)
    requires a <= b
    ensures Pow10(a) <= Pow10(b)
    decreases b
  {
    if a < b { Pow10Monotone(a, b - 1); }
  }

  /** `String(n)` of any whole number. */
  function IntText(n: int): string {
    if n < 0 then "-" + Numeral(-n) else Numeral(n)
  }

  lemma IntTextInjective(a: int, b: int)
    requires IntText(a) == IntText(b)
    ensures a == b
  {
    if a < 0 {
      assert IntText(b)[0] == '-';
      assert IntText(a)[1..] == Numeral(-a);
      if b < 0 { assert IntText(b)[1..] == Numeral(-b); }
    }
  }

  /** `String(n).padStart(2, "0")` */
  function Pad2(n: nat): (s: string)
    ensures AllDigits(s) && NumberOf(s) == n
    ensures n < 100 ==> |s| == 2
  {
    NumeralBelowHundred(n);
    var s := Numeral(n);
    if |s| >= 2 then s else
      assert "0"[..0] == "";
      assert ("0" + s)[..1] == "0";
      "0" + s
  }

  lemma NumeralBelowHundred(n: nat)
    ensures n < 100 ==> |Numeral(n)| <= 2
  {
    if 10 <= n < 100 {
      assert Pow10(1) == 10 && Pow10(2) == 100;
      NumeralLength(n, 2);
    }
  }

  /** `s.split(sep)` for a one-character separator. */
  function Split(s: string, sep: char): (parts: seq<string>)
    ensures |parts| >= 1
    ensures forall k | 0 <= k < |parts| :: sep !in parts[k]
  {
    if s == "" then [""]
    else if s[0] == sep then [""] + Split(s[1..], sep)
    else
      var rest := Split(s[1..], sep);
      [[s[0]] + rest[0]] + rest[1..]
  }

  lemma {:induction false} SplitAtSeparator(a: string, sep: char, rest: string)
    requires sep !in a
    ensures Split(a + [sep] + rest, sep) == [a] + Split(rest, sep)
  {
    if a == "" {
      assert a + [sep] + rest == [sep] + rest;
    } else {
      SplitAtSeparator(a[1..], sep, rest);
      assert (a + [sep] + rest)[1..] == a[1..] + [sep] + rest;
      assert [a[0]] + a[1..] == a;
    }
  }

  lemma {:induction false} SplitWithoutSeparator(a: string, sep: char)
    requires sep !in a
    ensures Split(a, sep) == [a]
  {
    if a != "" {
      SplitWithoutSeparator(a[1..], sep);
      assert [a[0]] + a[1..] == a;
    }
  }

  /** White space and line terminators, as `trim` and `\s` treat them (ECMA-262, sections 12.2 and 12.3). */
  predicate IsSpace(c: char) {
    c == ' ' || '\t' <= c <= '\r' || c == '\U{00A0}' || c == '\U{1680}' || '\U{2000}' <= c <= '\U{200A}'
    || c == '\U{2028}' || c == '\U{2029}' || c == '\U{202F}' || c == '\U{205F}' || c == '\U{3000}' || c == '\U{FEFF}'
  }

  /** The characters of white space, by their numbers. */
  lemma SpacesAre(c: char)
    ensures IsSpace(c) <==>
              c as int in {9, 10, 11, 12, 13, 32, 160, 5760, 8192, 8193, 8194, 8195, 8196, 8197, 8198, 8199, 8200,
                           8201, 8202, 8232, 8233, 8239, 8287, 12288, 65279}
  {
  }

  function TrimStart(s: string): string {
    if s != "" && IsSpace(s[0]) then TrimStart(s[1..]) else s
  }

  function TrimEnd(s: string): string {
    if s != "" && IsSpace(s[|s| - 1]) then TrimEnd(s[..|s| - 1]) else s
  }

  function Trim(s: string): string { TrimEnd(TrimStart(s)) }

  predicate AllSpaces(s: string) { forall i | 0 <= i < |s| :: IsSpace(s[i]) }

  /** Trimming cuts off white space only, and leaves none at either end. */
  lemma {:induction false} TrimCuts(s: string) returns (front: string, back: string)
    ensures s == front + Trim(s) + back && AllSpaces(front) && AllSpaces(back)
    ensures Trim(s) != "" ==> !IsSpace(Trim(s)[0]) && !IsSpace(Trim(s)[|Trim(s)| - 1])
  {
    var rest := TrimStart(s);
    front := TrimStartCuts(s);
    back := TrimEndCuts(rest);
    assert s == front + (Trim(s) + back) == front + Trim(s) + back;
    if Trim(s) != "" { assert rest[0] == Trim(s)[0]; }
  }

  lemma {:induction false} TrimStartCuts(s: string) returns (front: string)
    ensures s == front + TrimStart(s) && AllSpaces(front) && (TrimStart(s) != "" ==> !IsSpace(TrimStart(s)[0]))
  {
    if s != "" && IsSpace(s[0]) {
      var more := TrimStartCuts(s[1..]);
      front := [s[0]] + more;
      assert s == [s[0]] + s[1..];
    } else {
      front := "";
      assert s == "" + s;
    }
  }

  lemma {:induction false} TrimEndCuts(s: string) returns (back: string)
    ensures s == TrimEnd(s) + back && AllSpaces(back)
    ensures TrimEnd(s) != "" ==> !IsSpace(TrimEnd(s)[|TrimEnd(s)| - 1]) && TrimEnd(s)[0] == s[0]
  {
    if s != "" && IsSpace(s[|s| - 1]) {
      var more := TrimEndCuts(s[..|s| - 1]);
      back := more + [s[|s| - 1]];
      assert s == s[..|s| - 1] + [s[|s| - 1]];
    } else {
      back := "";
      assert s == s + "";
    }
  }

  /** Nothing is left exactly of white space. */
  lemma TrimEmptyIff(s: string)
    ensures Trim(s) == "" <==> AllSpaces(s)
  {
    var front, back := TrimCuts(s);
    if Trim(s) == "" {
      assert forall i | 0 <= i < |s| :: s[i] == if i < |front| then front[i] else back[i - |front|];
    } else {
      assert s[|front|] == Trim(s)[0];
    }
  }

  lemma TrimTwice(s: string)
    ensures Trim(Trim(s)) == Trim(s)
  {
    var front, back := TrimCuts(s);
  }

  /** `a < b` on strings: the first difference decides, and a proper prefix is smaller. */
  predicate Less(a: string, b: string) {
    if b == "" then false
    else if a == "" then true
    else if a[0] != b[0] then a[0] < b[0]
    else Less(a[1..], b[1..])
  }

  /** After parts of equal length the first part decides, and the second only when the first is equal. */
  lemma {:induction false} LessByParts(a: string, x: string, b: string, y: string)
    requires |a| == |b|
    ensures Less(a + x, b + y) <==> Less(a, b) || (a == b && Less(x, y))
  {
    if a == "" {
      assert a + x == x && b + y == y;
    } else {
      LessByParts(a[1..], x, b[1..], y);
      assert (a + x)[1..] == a[1..] + x && (b + y)[1..] == b[1..] + y;
      assert a == [a[0]] + a[1..] && b == [b[0]] + b[1..];
    }
  }

  /** On numerals of equal length, plain string order is the order of the numbers. */
  lemma {:induction false} LessIsNumeric(a: string, b: string)
    requires AllDigits(a) && AllDigits(b) && |a| == |b|
    ensures Less(a, b) <==> NumberOf(a) < NumberOf(b)
  {
    if a != "" {
      var n := |a| - 1;
      LessIsNumeric(a[..n], b[..n]);
      LessByParts(a[..n], a[n..], b[..n], b[n..]);
      assert a == a[..n] + a[n..] && b == b[..n] + b[n..];
      if NumberOf(a[..n]) == NumberOf(b[..n]) { DigitsDetermined(a[..n], b[..n]); }
      assert Less(a[n..], b[n..]) <==> a[n] < b[n];
    }
  }

  /** The length of the longest front part that holds digits only. */
  function DigitRun(s: string): (n: nat)
    ensures n <= |s| && AllDigits(s[..n]) && (n < |s| ==> !IsDigit(s[n]))
  {
    if s == "" || !IsDigit(s[0]) then 0 else
      var n := 1 + DigitRun(s[1..]);
      assert forall i | 1 <= i < n :: s[i] == s[1..][i - 1];
      n
  }

  lemma {:induction false} DigitRunIs(a: string, rest: string)
    requires AllDigits(a) && (rest != "" ==> !IsDigit(rest[0]))
    ensures DigitRun(a + rest) == |a|
  {
    if a == "" {
      assert a + rest == rest;
    } else {
      assert (a + rest)[0] == a[0];
      assert (a + rest)[1..] == a[1..] + rest;
      DigitRunIs(a[1..], rest);
    }
  }

  function LowerChar(c: char): char { if 'A' <= c <= 'Z' then (c as int + 32) as char else c }

  /** `toLowerCase` of a text of ASCII letters. */
  function Lower(s: string): (l: string)
    ensures |l| == |s|
  {
    seq(|s|, i requires 0 <= i < |s| => LowerChar(s[i]))
  }

  /** `toUpperCase` of a text of ASCII letters. */
  function Upper(s: string): (u: string)
    ensures |u| == |s|
  {
    seq(|s|, i requires 0 <= i < |s| => if 'a' <= s[i] <= 'z' then (s[i] as int - 32) as char else s[i])
  }

  /** `s.includes(part)` */
  predicate Contains(s: string, part: string) {
    part <= s || (s != "" && Contains(s[1..], part))
  }

  predicate StandsAt(s: string, part: string, i: nat) { i + |part| <= |s| && s[i..i + |part|] == part }

  lemma StandsLater(s: string, part: string, i: nat)
    requires s != ""
    ensures StandsAt(s[1..], part, i) <==> StandsAt(s, part, i + 1)
  {
    if i + 1 + |part| <= |s| { assert s[1..][i..i + |part|] == s[i + 1..i + 1 + |part|]; }
  }

  lemma StandsFirst(s: string, part: string)
    ensures StandsAt(s, part, 0) <==> part <= s
  {
    if |part| <= |s| { assert s[0..|part|] == s[..|part|]; }
  }

  /** A part is contained exactly when it stands at some place. */
  lemma {:induction false} ContainsIff(s: string, part: string)
    ensures Contains(s, part) <==> exists i: nat :: StandsAt(s, part, i)
  {
    StandsFirst(s, part);
    if s != "" {
      ContainsIff(s[1..], part);
      forall i: nat ensures StandsAt(s[1..], part, i) <==> StandsAt(s, part, i + 1) { StandsLater(s, part, i); }
      hide StandsAt;
      if i: nat :| StandsAt(s[1..], part, i) { assert StandsAt(s, part, i + 1); }
      if i: nat :| StandsAt(s, part, i) {
        if i > 0 { assert StandsAt(s[1..], part, i - 1) <==> StandsAt(s, part, i - 1 + 1); }
      }
    } else {
      NothingStands(part);
    }
  }

  lemma NothingStands(part: string)
    ensures forall i: nat | StandsAt("", part, i) :: i == 0
  {
  }
}
