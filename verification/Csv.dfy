/**
 * The vehicle importer's CSV reader and the asset register's CSV writer (section 2 of RFC 4180).
 *
 * The reader makes two passes with lookahead: it cuts the text into lines, then each line into fields. Its
 * reference is a single left-to-right scanner that looks at one character at a time and never ahead.
 */
module Csv {
  import opened Text

  // ---------- The single scanner ----------

  /** `Closing`: the last character was a quote that may have closed the quoted part or may be doubled. */
  datatype Mode = Outside | Inside | Closing

  /** Complete fields of the record, the field being read, and where the scanner stands. */
  datatype Row = Row(fields: seq<string>, cell: string, mode: Mode)

  const FRESH := Row([], "", Outside)

  function RowStep(r: Row, c: char): Row {
    if c == '"' then
      match r.mode
      case Outside => r.(mode := Inside)
      case Inside => r.(mode := Closing)
      case Closing => r.(mode := Inside, cell := r.cell + ['"'])
    else if r.mode == Inside then r.(cell := r.cell + [c])
    else if c == ',' then Row(r.fields + [r.cell], "", Outside)
    else r.(mode := Outside, cell := r.cell + [c])
  }

  function RowRun(r: Row, s: string): Row {
    if s == "" then r else RowStep(RowRun(r, s[..|s| - 1]), s[|s| - 1])
  }

  function RowFields(r: Row): seq<string> { r.fields + [r.cell] }

  /** Finished records, the record being read, and whether any character of it was seen. */
  datatype Scan = Scan(records: seq<seq<string>>, row: Row, started: bool)

  const START := Scan([], FRESH, false)

  predicate IsNewline(c: char) { c == '\n' || c == '\r' }

  /** A newline outside quotes ends the record; without a record it is skipped. */
  function Flush(s: Scan): Scan {
    if s.started then Scan(s.records + [RowFields(s.row)], FRESH, false) else s
  }

  function ScanStep(s: Scan, c: char): Scan {
    if IsNewline(c) && s.row.mode != Inside then Flush(s)
    else s.(row := RowStep(s.row, c), started := true)
  }

  function ScanRun(s: Scan, text: string): Scan {
    if text == "" then s else ScanStep(ScanRun(s, text[..|text| - 1]), text[|text| - 1])
  }

  /** The records of a text, each a list of fields with the quoting taken off. */
  function Records(text: string): seq<seq<string>> {
    Flush(ScanRun(START, text)).records
  }

  // ---------- Quote parity ----------

  function Quotes(s: string): nat {
    if s == "" then 0 else Quotes(s[..|s| - 1]) + (if s[|s| - 1] == '"' then 1 else 0)
  }

  /** The scanner is inside quotes exactly when an odd number of quotes of the whole text lies behind it. */
  lemma {:induction false} InsideIsOddQuotes(text: string)
    ensures ScanRun(START, text).row.mode == Inside <==> Quotes(text) % 2 == 1
  {
    if text != "" { InsideIsOddQuotes(text[..|text| - 1]); }
  }

  /**
   * At every place of every text: a comma or a newline separates exactly when the quotes before it are even
   * in number. Otherwise it becomes a character of the field.
   */
  lemma SeparatorsAtEvenQuotes(text: string, k: nat)
    requires k < |text| && (text[k] == ',' || IsNewline(text[k]))
    ensures var before, after := ScanRun(START, text[..k]), ScanRun(START, text[..k + 1]);
            if Quotes(text[..k]) % 2 == 1 then
              after == before.(row := before.row.(cell := before.row.cell + [text[k]]), started := true)
            else if text[k] == ',' then
              after == before.(row := Row(RowFields(before.row), "", Outside), started := true)
            else after == Flush(before)
  {
    InsideIsOddQuotes(text[..k]);
    assert text[..k + 1][..k] == text[..k];
  }

  /** Behind a closing quote: the last character is a quote and their number is even. */
  lemma {:induction false} ClosingIsEvenQuote(text: string)
    ensures ScanRun(START, text).row.mode == Closing
            <==> text != "" && text[|text| - 1] == '"' && Quotes(text) % 2 == 0
  {
    if text != "" {
      InsideIsOddQuotes(text[..|text| - 1]);
      ClosingIsEvenQuote(text[..|text| - 1]);
    }
  }

  /**
   * At every place of every text: a quote is left out of the field, unless it stands directly behind another one with
   * an even number of quotes before it; then it is the second of a doubled quote and becomes a character.
   */
  lemma QuoteIsRead(text: string, k: nat)
    requires k < |text| && text[k] == '"'
    ensures var before, after := ScanRun(START, text[..k]), ScanRun(START, text[..k + 1]);
            var doubled := k > 0 && text[k - 1] == '"' && Quotes(text[..k]) % 2 == 0;
            && after.records == before.records && after.started && after.row.fields == before.row.fields
            && after.row.cell == before.row.cell + (if doubled then ['"'] else [])
  {
    ClosingIsEvenQuote(text[..k]);
    assert text[..k + 1][..k] == text[..k];
    if k > 0 { assert text[..k][k - 1] == text[k - 1]; }
    var cell := ScanRun(START, text[..k]).row.cell;
    assert cell + [] == cell;
  }

  /** Any character but quotes, commas and newlines becomes a character of the field. */
  lemma CharacterIsRead(text: string, k: nat)
    requires k < |text| && text[k] !in "\",\n\r"
    ensures var before, after := ScanRun(START, text[..k]), ScanRun(START, text[..k + 1]);
            && after.records == before.records && after.started && after.row.fields == before.row.fields
            && after.row.cell == before.row.cell + [text[k]]
  {
    assert text[..k + 1][..k] == text[..k];
  }

  // ---------- The reader's two passes ----------

  /** A line cut into fields, as `splitRow` does it: a doubled quote inside quotes is taken in one step. */
  method SplitRow(line: string) returns (out: seq<string>)
    ensures out == RowFields(RowRun(FRESH, line))
  {
    out := [];
    var cur, inQ, i := "", false, 0;
    while i < |line|
      invariant i <= |line|
      invariant var r := RowRun(FRESH, line[..i]);
                r.fields == out && r.cell == cur && (r.mode == Inside <==> inQ)
                && (r.mode == Closing && i < |line| ==> line[i] != '"')
    {
      var ch := line[i];
      assert line[..i + 1][..i] == line[..i];
      if ch == '"' {
        if inQ && i + 1 < |line| && line[i + 1] == '"' {
          assert line[..i + 2][..i + 1] == line[..i + 1];
          cur := cur + ['"'];
          i := i + 1;
        } else {
          inQ := !inQ;
        }
      } else if ch == ',' && !inQ {
        out := out + [cur];
        cur := "";
      } else {
        cur := cur + [ch];
      }
      i := i + 1;
    }
    out := out + [cur];
    assert line[..|line|] == line;
  }

  /** What the scanner has read after a prefix, told from the lines finished so far and the open line. */
  ghost predicate LinesMatch(s: Scan, lines: seq<string>, buf: string, inQuotes: bool) {
    && |s.records| == |lines|
    && (forall k | 0 <= k < |lines| :: s.records[k] == RowFields(RowRun(FRESH, lines[k])))
    && s.row == RowRun(FRESH, buf)
    && (s.started <==> buf != "")
    && (s.row.mode == Inside <==> inQuotes)
  }

  /** A character that does not end a line is read into the open line. */
  lemma CharIsKept(text: string, i: nat, lines: seq<string>, buf: string, inQuotes: bool)
    requires i < |text| && (IsNewline(text[i]) ==> inQuotes)
    requires LinesMatch(ScanRun(START, text[..i]), lines, buf, inQuotes)
    ensures LinesMatch(ScanRun(START, text[..i + 1]), lines, buf + [text[i]], inQuotes != (text[i] == '"'))
  {
    assert text[..i + 1][..i] == text[..i];
    assert (buf + [text[i]])[..|buf|] == buf;
  }

  /** A newline outside quotes ends the open line, if there is anything in it. */
  lemma LineEnds(text: string, i: nat, lines: seq<string>, buf: string)
    requires i < |text| && IsNewline(text[i])
    requires LinesMatch(ScanRun(START, text[..i]), lines, buf, false)
    ensures LinesMatch(ScanRun(START, text[..i + 1]), if buf == "" then lines else lines + [buf], "", false)
  {
    assert text[..i + 1][..i] == text[..i];
  }

  lemma NothingRead(text: string)
    ensures LinesMatch(ScanRun(START, text[..0]), [], "", false)
  {
  }

  /** The end of the text ends the open line. */
  lemma LastLineEnds(text: string, lines: seq<string>, buf: string, inQuotes: bool)
    requires LinesMatch(ScanRun(START, text[..|text|]), lines, buf, inQuotes)
    ensures var all := if buf == "" then lines else lines + [buf];
            && |all| == |Records(text)|
            && forall k | 0 <= k < |all| :: Records(text)[k] == RowFields(RowRun(FRESH, all[k]))
  {
    assert text[..|text|] == text;
  }

  /** The text cut into lines: quotes are kept, newlines inside quotes too, and empty lines are dropped. */
  method SplitLines(text: string) returns (lines: seq<string>)
    ensures |lines| == |Records(text)|
    ensures forall k | 0 <= k < |lines| :: Records(text)[k] == RowFields(RowRun(FRESH, lines[k]))
  {
    hide LinesMatch, ScanRun, Records, RowRun;
    lines := [];
    var buf, inQuotes, i := "", false, 0;
    NothingRead(text);
    while i < |text|
      invariant i <= |text|
      invariant LinesMatch(ScanRun(START, text[..i]), lines, buf, inQuotes)
    {
      var ch := text[i];
      if ch == '"' {
        CharIsKept(text, i, lines, buf, inQuotes);
        inQuotes := !inQuotes;
        buf := buf + [ch];
      } else if (ch == '\n' || ch == '\r') && !inQuotes {
        LineEnds(text, i, lines, buf);
        if |buf| > 0 {
          lines := lines + [buf];
          buf := "";
        }
        if ch == '\r' && i + 1 < |text| && text[i + 1] == '\n' {
          LineEnds(text, i + 1, lines, buf);
          i := i + 1;
        }
      } else {
        CharIsKept(text, i, lines, buf, inQuotes);
        buf := buf + [ch];
      }
      i := i + 1;
    }
    LastLineEnds(text, lines, buf, inQuotes);
    if |buf| > 0 {
      lines := lines + [buf];
    }
  }

  // ---------- Rows by column name ----------

  datatype Result<+T> = Ok(value: T) | TypeError

  function CellAt(cells: seq<string>, c: nat): string {
    if c < |cells| then Trim(cells[c]) else ""
  }

  /** Each column name with the trimmed field below it; a later column of the same name wins. */
  function RowMap(header: seq<string>, cells: seq<string>, n: nat): map<string, string>
    requires n <= |header|
  {
    if n == 0 then map[] else RowMap(header, cells, n - 1)[header[n - 1] := CellAt(cells, n - 1)]
  }

  predicate IsBlank(cells: seq<string>) { |cells| == 1 && Trim(cells[0]) == "" }

  function RowMaps(header: seq<string>, records: seq<seq<string>>): seq<map<string, string>> {
    if records == [] then [] else
      var front := RowMaps(header, records[..|records| - 1]);
      var cells := records[|records| - 1];
      if IsBlank(cells) then front else front + [RowMap(header, cells, |header|)]
  }

  function TrimAll(cells: seq<string>): (r: seq<string>)
    ensures |r| == |cells|
  {
    seq(|cells|, i requires 0 <= i < |cells| => Trim(cells[i]))
  }

  /** The rows of a text: the first record names the columns. A text without records cannot be read. */
  function Parsed(text: string): Result<seq<map<string, string>>> {
    var records := Records(text);
    if records == [] then TypeError else Ok(RowMaps(TrimAll(records[0]), records[1..]))
  }

  lemma {:induction false} RowKeys(header: seq<string>, cells: seq<string>, n: nat)
    requires n <= |header|
    ensures forall h :: h in RowMap(header, cells, n) <==> h in header[..n]
  {
    if n > 0 {
      RowKeys(header, cells, n - 1);
      assert header[..n] == header[..n - 1] + [header[n - 1]];
    }
  }

  /** Under a column name stands the trimmed field below the last column of that name, or nothing below a short row. */
  lemma {:induction false} RowIs(header: seq<string>, cells: seq<string>, n: nat, c: nat)
    requires c < n <= |header| && forall d | c < d < n :: header[d] != header[c]
    ensures header[c] in RowMap(header, cells, n)
    ensures RowMap(header, cells, n)[header[c]] == if c < |cells| then Trim(cells[c]) else ""
  {
    if c < n - 1 { RowIs(header, cells, n - 1, c); }
  }

  /** The rows are those of the records at these places, in order. */
  ghost predicate RowsAt(rows: seq<map<string, string>>, header: seq<string>, records: seq<seq<string>>,
                         places: seq<nat>) {
    && |places| == |rows| && (forall i, j | 0 <= i < j < |places| :: places[i] < places[j])
    && forall i | 0 <= i < |rows| ::
         places[i] < |records| && rows[i] == RowMap(header, records[places[i]], |header|)
  }

  /** A single field of white space only. */
  predicate IsEmptyLine(record: seq<string>) { |record| == 1 && AllSpaces(record[0]) }

  ghost predicate AreFilled(places: seq<nat>, records: seq<seq<string>>) {
    forall p: nat :: p in places <==> p < |records| && !IsEmptyLine(records[p])
  }

  /** Every record gives one row, except those of a single field that holds white space only. */
  lemma {:induction false} RowsAre(header: seq<string>, records: seq<seq<string>>) returns (places: seq<nat>)
    ensures RowsAt(RowMaps(header, records), header, records, places) && AreFilled(places, records)
  {
    if records == [] {
      places := [];
    } else {
      hide RowMap, RowsAt, AreFilled, IsEmptyLine, IsBlank;
      var n := |records| - 1;
      places := RowsAre(header, records[..n]);
      BlankIsEmpty(records[n]);
      OneMoreRow(RowMaps(header, records[..n]), header, records, places);
      OneMoreFilled(places, records);
      if !IsBlank(records[n]) { places := places + [n]; }
    }
  }

  lemma BlankIsEmpty(record: seq<string>)
    ensures IsBlank(record) <==> IsEmptyLine(record)
  {
    if |record| == 1 { TrimEmptyIff(record[0]); }
  }

  lemma OneMoreRow(rows: seq<map<string, string>>, header: seq<string>, records: seq<seq<string>>, places: seq<nat>)
    requires records != [] && RowsAt(rows, header, records[..|records| - 1], places)
    ensures RowsAt(rows, header, records, places)
    ensures var n := |records| - 1;
            RowsAt(rows + [RowMap(header, records[n], |header|)], header, records, places + [n])
  {
    hide RowMap;
    var n := |records| - 1;
    var row := RowMap(header, records[n], |header|);
    forall i | 0 <= i < |rows| ensures places[i] < n && rows[i] == RowMap(header, records[places[i]], |header|) {
      assert records[..n][places[i]] == records[places[i]];
    }
    forall i | 0 <= i < |rows + [row]|
      ensures (rows + [row])[i] == RowMap(header, records[(places + [n])[i]], |header|)
    {
      if i < |rows| { assert (places + [n])[i] == places[i]; }
    }
  }

  lemma OneMoreFilled(places: seq<nat>, records: seq<seq<string>>)
    requires records != [] && AreFilled(places, records[..|records| - 1])
    ensures var n := |records| - 1; AreFilled(if IsEmptyLine(records[n]) then places else places + [n], records)
  {
    hide IsEmptyLine;
    assert forall p: nat | p < |records| - 1 :: records[..|records| - 1][p] == records[p];
  }

  /** What is read of any text: the first record names the columns, the others give the rows; without one nothing is. */
  lemma ParsedIs(text: string) returns (places: seq<nat>)
    ensures Parsed(text).Ok? <==> Records(text) != []
    ensures Parsed(text).Ok? ==>
              var names, rest := Records(text)[0], Records(text)[1..];
              var header := seq(|names|, c requires 0 <= c < |names| => Trim(names[c]));
              && RowsAt(Parsed(text).value, header, rest, places)
              && AreFilled(places, rest)
  {
    hide Records, RowMap, Trim;
    places := [];
    if Records(text) != [] {
      var names := Records(text)[0];
      assert TrimAll(names) == seq(|names|, c requires 0 <= c < |names| => Trim(names[c]));
      places := RowsAre(TrimAll(names), Records(text)[1..]);
    }
  }

  /** `parseCsv`: both passes of the reader together compute what the single scanner computes. */
  method ParseCsv(text: string) returns (r: Result<seq<map<string, string>>>)
    ensures r == Parsed(text)
  {
    hide Records, RowRun, Trim, TrimAll;
    var lines := SplitLines(text);
    ghost var records := Records(text);
    if |lines| == 0 {
      return TypeError;
    }
    var names := SplitRow(lines[0]);
    var header := TrimAll(names);
    var rows: seq<map<string, string>> := [];
    for n := 1 to |lines|
      invariant rows == RowMaps(header, records[1..][..n - 1])
    {
      var cells := SplitRow(lines[n]);
      assert records[1..][..n][..n - 1] == records[1..][..n - 1];
      assert records[1..][..n][n - 1] == cells;
      if |cells| == 1 && Trim(cells[0]) == "" {
        continue;
      }
      var row: map<string, string> := map[];
      for c := 0 to |header|
        invariant row == RowMap(header, cells, c)
      {
        row := row[header[c] := CellAt(cells, c)];
      }
      rows := rows + [row];
    }
    assert records[1..][..|lines| - 1] == records[1..];
    return Ok(rows);
  }

  // ---------- The writer ----------

  /** A row that could not be saved. */
  datatype Entry = Entry(row: nat, assetTag: string, name: string, message: string)

  function Doubled(s: string): string {
    if s == "" then "" else Doubled(s[..|s| - 1]) + (if s[|s| - 1] == '"' then "\"\"" else [s[|s| - 1]])
  }

  function Quote(s: string): string { "\"" + Doubled(s) + "\"" }

  function EntryFields(e: Entry): seq<string> { [Numeral(e.row), e.assetTag, e.name, e.message] }

  function EntryLine(e: Entry): string {
    Quote(Numeral(e.row)) + "," + Quote(e.assetTag) + "," + Quote(e.name) + "," + Quote(e.message)
  }

  const HEADER_LINE := "Row,Asset tag,Name,Problem"
  const COLUMNS: seq<string> := ["Row", "Asset tag", "Name", "Problem"]

  /** `importErrorsCsv`: the lines joined by line feeds, without one at the end. */
  function ImportErrorsCsv(entries: seq<Entry>): string {
    if entries == [] then HEADER_LINE
    else ImportErrorsCsv(entries[..|entries| - 1]) + "\n" + EntryLine(entries[|entries| - 1])
  }

  // ---------- Reading back what was written ----------

  lemma {:induction false} ScanRunConcat(s: Scan, a: string, b: string)
    ensures ScanRun(s, a + b) == ScanRun(ScanRun(s, a), b)
  {
    if b == "" {
      assert a + b == a;
    } else {
      ScanRunConcat(s, a, b[..|b| - 1]);
      assert (a + b)[..|a + b| - 1] == a + b[..|b| - 1];
    }
  }

  /** Inside quotes, a doubled text is read as the text itself, newlines and commas included. */
  lemma {:induction false} DoubledReads(s: Scan, t: string)
    requires s.row.mode == Inside && s.started
    ensures ScanRun(s, Doubled(t)) == s.(row := s.row.(cell := s.row.cell + t))
  {
    if t == "" {
      assert s.row.cell + t == s.row.cell;
    } else {
      var n := |t| - 1;
      DoubledReads(s, t[..n]);
      assert s.row.cell + t == s.row.cell + t[..n] + [t[n]];
      if t[n] == '"' {
        ScanRunConcat(s, Doubled(t[..n]), "\"\"");
        ScanRunConcat(ScanRun(s, Doubled(t[..n])), "\"", "\"");
        One(ScanRun(s, Doubled(t[..n])), '"');
        One(ScanRun(ScanRun(s, Doubled(t[..n])), "\""), '"');
      } else {
        ScanRunConcat(s, Doubled(t[..n]), [t[n]]);
        One(ScanRun(s, Doubled(t[..n])), t[n]);
      }
    }
  }

  /** A quoted field in front of a fresh place is read as one field, up to its closing quote. */
  lemma QuoteReads(s: Scan, t: string)
    requires s.row.mode == Outside && s.row.cell == ""
    ensures ScanRun(s, Quote(t)) == s.(row := Row(s.row.fields, t, Closing), started := true)
  {
    var start := s.(row := s.row.(mode := Inside), started := true);
    One(s, '"');
    DoubledReads(start, t);
    assert start.row.cell + t == t;
    ScanRunConcat(start, Doubled(t), "\"");
    One(ScanRun(start, Doubled(t)), '"');
    ScanRunConcat(s, "\"", Doubled(t) + "\"");
    assert Quote(t) == "\"" + (Doubled(t) + "\"");
  }

  lemma One(s: Scan, c: char)
    ensures ScanRun(s, [c]) == ScanStep(s, c)
  {
    assert [c][..0] == "";
  }

  /** A quoted field and the comma behind it complete one field of the record. */
  lemma QuoteCommaReads(s: Scan, t: string)
    requires s.row.mode == Outside && s.row.cell == ""
    ensures ScanRun(s, Quote(t) + ",") == s.(row := Row(s.row.fields + [t], "", Outside), started := true)
  {
    QuoteReads(s, t);
    ScanRunConcat(s, Quote(t), ",");
    One(ScanRun(s, Quote(t)), ',');
  }

  /** A printed line, read from a fresh start, leaves the four fields. */
  lemma EntryLineReads(s: Scan, e: Entry)
    requires s.row == FRESH && !s.started
    ensures var r := ScanRun(s, EntryLine(e));
            r.records == s.records && r.started && r.row.mode == Closing && RowFields(r.row) == EntryFields(e)
  {
    hide ScanRun, Quote;
    var q1, q2, q3, q4 := Quote(Numeral(e.row)) + ",", Quote(e.assetTag) + ",", Quote(e.name) + ",", Quote(e.message);
    QuoteCommaReads(s, Numeral(e.row));
    var s1 := ScanRun(s, q1);
    QuoteCommaReads(s1, e.assetTag);
    var s2 := ScanRun(s1, q2);
    QuoteCommaReads(s2, e.name);
    var s3 := ScanRun(s2, q3);
    QuoteReads(s3, e.message);
    ScanRunConcat(s, q1, q2 + (q3 + q4));
    ScanRunConcat(s1, q2, q3 + q4);
    ScanRunConcat(s2, q3, q4);
    assert EntryLine(e) == q1 + (q2 + (q3 + q4));
  }

  function FieldLists(entries: seq<Entry>): (r: seq<seq<string>>)
    ensures |r| == |entries|
  {
    if entries == [] then []
    else FieldLists(entries[..|entries| - 1]) + [EntryFields(entries[|entries| - 1])]
  }

  predicate IsPlain(t: string) { forall i | 0 <= i < |t| :: t[i] != '"' && t[i] != ',' && !IsNewline(t[i]) }

  lemma {:induction false} PlainReads(s: Scan, t: string)
    requires s.row.mode == Outside && t != ""
    requires IsPlain(t)
    ensures ScanRun(s, t) == s.(row := s.row.(cell := s.row.cell + t), started := true)
  {
    var n := |t| - 1;
    assert s.row.cell + t == s.row.cell + t[..n] + [t[n]];
    if n == 0 { assert s.row.cell + t[..0] == s.row.cell; } else { PlainReads(s, t[..n]); }
  }

  lemma PlainCommaReads(s: Scan, t: string)
    requires s.row.mode == Outside && s.row.cell == "" && t != ""
    requires IsPlain(t)
    ensures ScanRun(s, t + ",") == s.(row := Row(s.row.fields + [t], "", Outside), started := true)
  {
    hide ScanRun;
    PlainReads(s, t);
    assert s.row.cell + t == t;
    ScanRunConcat(s, t, ",");
    One(ScanRun(s, t), ',');
  }

  lemma HeaderReads()
    ensures ScanRun(START, HEADER_LINE) == Scan([], Row(COLUMNS[..3], COLUMNS[3], Outside), true)
  {
    hide ScanRun, IsPlain;
    var h1, h2, h3, h4 := "Row", "Asset tag", "Name", "Problem";
    assert IsPlain(h1) && IsPlain(h2) && IsPlain(h3) && IsPlain(h4) by { HeaderIsPlain(); }
    HeaderParts(h1, h2, h3, h4);
    PlainCommaReads(START, h1);
    var s1 := ScanRun(START, h1 + ",");
    PlainCommaReads(s1, h2);
    var s2 := ScanRun(s1, h2 + ",");
    PlainCommaReads(s2, h3);
    var s3 := ScanRun(s2, h3 + ",");
    PlainReads(s3, h4);
    assert s3.row.cell + h4 == h4;
    assert s3.row.fields == COLUMNS[..3];
    assert HEADER_LINE == h1 + "," + (h2 + "," + (h3 + "," + h4)) by { HeaderSplits(); }
  }

  lemma HeaderIsPlain()
    ensures IsPlain("Row") && IsPlain("Asset tag") && IsPlain("Name") && IsPlain("Problem")
  {
  }

  lemma HeaderSplits()
    ensures HEADER_LINE == "Row" + "," + ("Asset tag" + "," + ("Name" + "," + "Problem"))
  {
  }

  lemma HeaderParts(h1: string, h2: string, h3: string, h4: string)
    ensures ScanRun(START, h1 + "," + (h2 + "," + (h3 + "," + h4)))
            == ScanRun(ScanRun(ScanRun(ScanRun(START, h1 + ","), h2 + ","), h3 + ","), h4)
  {
    hide ScanRun;
    ScanRunConcat(START, h1 + ",", h2 + "," + (h3 + "," + h4));
    var s1 := ScanRun(START, h1 + ",");
    ScanRunConcat(s1, h2 + ",", h3 + "," + h4);
    var s2 := ScanRun(s1, h2 + ",");
    ScanRunConcat(s2, h3 + ",", h4);
    assert h1 + "," + (h2 + "," + (h3 + "," + h4)) == (h1 + ",") + ((h2 + ",") + ((h3 + ",") + h4));
  }

  /** Scanning a written text leaves one record per entry behind the column names. */
  lemma {:induction false} WrittenRecords(entries: seq<Entry>)
    ensures var s := ScanRun(START, ImportErrorsCsv(entries));
            s.started && s.row.mode != Inside && Flush(s).records == [COLUMNS] + FieldLists(entries)
  {
    hide ScanRun, EntryLine, EntryFields, HEADER_LINE;
    if entries == [] {
      HeaderReads();
      assert COLUMNS[..3] + [COLUMNS[3]] == COLUMNS;
    } else {
      var front, e := entries[..|entries| - 1], entries[|entries| - 1];
      WrittenRecords(front);
      var text := ImportErrorsCsv(front);
      var s := ScanRun(START, text);
      ScanRunConcat(START, text, "\n");
      One(s, '\n');
      ScanRunConcat(START, text + "\n", EntryLine(e));
      EntryLineReads(Flush(s), e);
      assert [COLUMNS] + FieldLists(front) + [EntryFields(e)] == [COLUMNS] + FieldLists(entries);
    }
  }

  function EntryMap(e: Entry): map<string, string> {
    map["Row" := Numeral(e.row), "Asset tag" := Trim(e.assetTag), "Name" := Trim(e.name), "Problem" := Trim(e.message)]
  }

  lemma {:induction false} EntryMaps(entries: seq<Entry>)
    ensures RowMaps(COLUMNS, FieldLists(entries))
            == seq(|entries|, k requires 0 <= k < |entries| => EntryMap(entries[k]))
  {
    hide EntryMap, RowMap, Trim;
    if entries != [] {
      var front, e := entries[..|entries| - 1], entries[|entries| - 1];
      EntryMaps(front);
      assert FieldLists(entries)[..|entries| - 1] == FieldLists(front);
      EntryRow(e);
    }
  }

  lemma EntryRow(e: Entry)
    ensures RowMap(COLUMNS, EntryFields(e), 4) == EntryMap(e)
  {
    var cells := EntryFields(e);
    TrimVisible(Numeral(e.row));
    assert RowMap(COLUMNS, cells, 1) == map["Row" := Numeral(e.row)];
    assert RowMap(COLUMNS, cells, 2) == map["Row" := Numeral(e.row), "Asset tag" := Trim(e.assetTag)];
    assert RowMap(COLUMNS, cells, 3)
        == map["Row" := Numeral(e.row), "Asset tag" := Trim(e.assetTag), "Name" := Trim(e.name)];
  }

  lemma TrimVisible(s: string)
    requires s != "" && !IsSpace(s[0]) && !IsSpace(s[|s| - 1])
    ensures Trim(s) == s
  {
  }

  lemma ColumnsAreTrimmed()
    ensures TrimAll(COLUMNS) == COLUMNS
  {
    forall k | 0 <= k < 4 ensures Trim(COLUMNS[k]) == COLUMNS[k] { TrimVisible(COLUMNS[k]); }
  }

  /**
   * Reading a written error list gives one row per entry, in order, under the four column names, whatever
   * commas, quotes, line feeds and carriage returns the fields hold. The texts come back trimmed.
   */
  lemma {:induction false} ReadAfterWrite(entries: seq<Entry>)
    ensures Parsed(ImportErrorsCsv(entries))
            == Ok(seq(|entries|, k requires 0 <= k < |entries| => EntryMap(entries[k])))
  {
    var records := Records(ImportErrorsCsv(entries));
    WrittenRecords(entries);
    ColumnsAreTrimmed();
    EntryMaps(entries);
    assert records[0] == COLUMNS && records[1..] == FieldLists(entries);
  }

  /** A list of one entry, written out. */
  lemma OneEntryWritten()
    ensures ImportErrorsCsv([Entry(2, "P-1", "Pump", "no, tag")])
            == "Row,Asset tag,Name,Problem" + "\n" + "\"2\"" + "," + "\"P-1\"" + "," + "\"Pump\"" + "," + "\"no, tag\""
  {
    QuoteOf("2", "\"2\"");
    QuoteOf("P-1", "\"P-1\"");
    QuoteOf("Pump", "\"Pump\"");
    QuoteOf("no, tag", "\"no, tag\"");
    hide Quote, HEADER_LINE;
    var e := Entry(2, "P-1", "Pump", "no, tag");
    assert Numeral(2) == "2";
    assert [e][..0] == [];
    JoinLine(HEADER_LINE, Quote("2"), Quote("P-1"), Quote("Pump"), Quote("no, tag"));
    assert HEADER_LINE == "Row,Asset tag,Name,Problem" by { HeaderIs(); }
  }

  lemma HeaderIs()
    ensures HEADER_LINE == "Row,Asset tag,Name,Problem"
  {
  }

  lemma JoinLine(h: string, a: string, b: string, c: string, d: string)
    ensures h + "\n" + (a + "," + b + "," + c + "," + d) == h + "\n" + a + "," + b + "," + c + "," + d
  {
  }

  lemma QuoteOf(s: string, q: string)
    requires '"' !in s && q == "\"" + s + "\""
    ensures Quote(s) == q
  {
    NothingDoubled(s);
  }

  lemma {:induction false} NothingDoubled(s: string)
    requires '"' !in s
    ensures Doubled(s) == s
  {
    if s != "" {
      NothingDoubled(s[..|s| - 1]);
      assert s == s[..|s| - 1] + [s[|s| - 1]];
    }
  }
}
