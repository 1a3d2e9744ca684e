/** The order in which the asset import saves its rows: parents before children, in parts of limited size. */
module SaveOrder {
  import opened Options
  import opened ParentChain

  /** A row of the file. */
  datatype ImportRow = ImportRow(row: nat, cells: map<string, string>)

  /** A line of the preview: its row, the tag of its asset and, for a parent in the same file, the parent's tag. */
  datatype Line = Line(row: nat, assetTag: string, parentRowTag: Option<string>)

  /** The last line of each row. */
  function ByRow(lines: seq<Line>): map<nat, Line> {
    if lines == [] then map[] else
      var last := lines[|lines| - 1];
      ByRow(lines[..|lines| - 1])[last.row := last]
  }

  /** The row of each upper-cased tag; the last line wins and lines without a tag are left out. */
  function RowByTag(lines: seq<Line>, upper: string -> string): map<string, nat> {
    if lines == [] then map[] else
      var front, last := RowByTag(lines[..|lines| - 1], upper), lines[|lines| - 1];
      if last.assetTag == "" then front else front[upper(last.assetTag) := last.row]
  }

  /** The parent of a row, if its line names one and a line of the file carries that tag; row 0 is no row. */
  function ParentOf(byRow: map<nat, Line>, rowByTag: map<string, nat>, row: nat): Option<nat> {
    if row !in byRow then None else
      match byRow[row].parentRowTag
      case None => None
      case Some(tag) =>
        if tag == "" || tag !in rowByTag || rowByTag[tag] == 0 then None else Some(rowByTag[tag])
  }

  function Parents(lines: seq<Line>, upper: string -> string): map<nat, nat> {
    var byRow, rowByTag := ByRow(lines), RowByTag(lines, upper);
    map row | row in byRow && ParentOf(byRow, rowByTag, row).Some? :: ParentOf(byRow, rowByTag, row).value
  }

  /** The rows met by one call of `depth`; the calls it makes share it. */
  class Seen {
    var rows: set<nat>

    constructor ()
      ensures rows == {}
    {
      rows := {};
    }
  }

  lemma NoneUnseen(parent: map<nat, nat>, row: nat, rows: set<nat>)
    requires SeenOnTheWay(parent, row, rows) && Depth(parent, row, rows) == 0
    ensures Ancestors(parent, row) <= rows && |Ancestors(parent, row) - rows| == 0
  {
    DepthCountsUnseen(parent, row, rows);
    var unseen := Ancestors(parent, row) - rows;
    assert |unseen| == 0;
    forall a | a in Ancestors(parent, row) ensures a in rows { assert a !in unseen; }
  }

  /** `depth`: terminates on every parent map and counts the ancestors that were not seen before. */
  method CountDepth(parent: map<nat, nat>, row: nat, seen: Seen) returns (d: nat)
    requires SeenOnTheWay(parent, row, seen.rows)
    modifies seen
    ensures d == |Ancestors(parent, row) - old(seen.rows)|
    ensures d == Depth(parent, row, old(seen.rows))
    ensures seen.rows == old(seen.rows) + Ancestors(parent, row)
    decreases parent.Values - seen.rows
  {
    DepthCountsUnseen(parent, row, seen.rows);
    AncestorsStep(parent, row);
    if row !in parent || parent[row] in seen.rows {
      NoneUnseen(parent, row, seen.rows);
      return 0;
    }
    seen.rows := seen.rows + {parent[row]};
    d := CountDepth(parent, parent[row], seen);
    d := d + 1;
  }

  /** The comparison of the sort: less deep first, then by row number. */
  predicate NotAfter(parent: map<nat, nat>, a: ImportRow, b: ImportRow) {
    var m, n := Depth(parent, a.row, {}), Depth(parent, b.row, {});
    m < n || (m == n && a.row <= b.row)
  }

  /** Puts a row behind every row that it need not precede, so that equal rows keep their order. */
  function Insert(parent: map<nat, nat>, rows: seq<ImportRow>, x: ImportRow): seq<ImportRow> {
    if rows == [] || NotAfter(parent, rows[|rows| - 1], x) then rows + [x]
    else Insert(parent, rows[..|rows| - 1], x) + [rows[|rows| - 1]]
  }

  /** The rows in the order of the comparison. */
  function Ordered(parent: map<nat, nat>, rows: seq<ImportRow>): seq<ImportRow> {
    if rows == [] then [] else Insert(parent, Ordered(parent, rows[..|rows| - 1]), rows[|rows| - 1])
  }

  ghost predicate IsOrdered(parent: map<nat, nat>, rows: seq<ImportRow>) {
    forall i, j | 0 <= i < j < |rows| :: NotAfter(parent, rows[i], rows[j])
  }

  lemma {:induction false} InsertKeepsRows(parent: map<nat, nat>, rows: seq<ImportRow>, x: ImportRow)
    ensures multiset(Insert(parent, rows, x)) == multiset(rows) + multiset{x}
  {
    hide NotAfter;
    if rows != [] && !NotAfter(parent, rows[|rows| - 1], x) {
      InsertKeepsRows(parent, rows[..|rows| - 1], x);
      assert rows == rows[..|rows| - 1] + [rows[|rows| - 1]];
    }
  }

  lemma {:induction false} InsertOrders(parent: map<nat, nat>, rows: seq<ImportRow>, x: ImportRow)
    requires IsOrdered(parent, rows)
    ensures IsOrdered(parent, Insert(parent, rows, x))
  {
    hide Depth;
    var n := |rows| - 1;
    if rows == [] {
    } else if NotAfter(parent, rows[n], x) {
      forall i | 0 <= i < n ensures NotAfter(parent, rows[i], x) {
        assert NotAfter(parent, rows[i], rows[n]);
      }
      OrderedSnoc(parent, rows, x);
    } else {
      var front := Insert(parent, rows[..n], x);
      InsertOrders(parent, rows[..n], x);
      InsertKeepsRows(parent, rows[..n], x);
      InsertedNotAfter(parent, rows[..n], x, front, rows[n]);
      OrderedSnoc(parent, front, rows[n]);
    }
  }

  lemma InsertedNotAfter(parent: map<nat, nat>, rows: seq<ImportRow>, x: ImportRow, front: seq<ImportRow>,
                         last: ImportRow)
    requires multiset(front) == multiset(rows) + multiset{x}
    requires NotAfter(parent, x, last) && forall i | 0 <= i < |rows| :: NotAfter(parent, rows[i], last)
    ensures forall i | 0 <= i < |front| :: NotAfter(parent, front[i], last)
  {
    hide NotAfter;
    forall i | 0 <= i < |front| ensures NotAfter(parent, front[i], last) {
      assert front[i] in multiset(front);
      assert front[i] == x || front[i] in rows;
    }
  }

  lemma OrderedSnoc(parent: map<nat, nat>, rows: seq<ImportRow>, x: ImportRow)
    requires IsOrdered(parent, rows) && forall i | 0 <= i < |rows| :: NotAfter(parent, rows[i], x)
    ensures IsOrdered(parent, rows + [x])
  {
    hide NotAfter;
  }

  /** Sorting keeps every row and puts them in the order of the comparison. */
  lemma {:induction false} OrderedSorts(parent: map<nat, nat>, rows: seq<ImportRow>)
    ensures IsOrdered(parent, Ordered(parent, rows))
    ensures multiset(Ordered(parent, rows)) == multiset(rows)
  {
    if rows != [] {
      var n := |rows| - 1;
      OrderedSorts(parent, rows[..n]);
      InsertOrders(parent, Ordered(parent, rows[..n]), rows[n]);
      InsertKeepsRows(parent, Ordered(parent, rows[..n]), rows[n]);
      assert rows == rows[..n] + [rows[n]];
    }
  }

  /** In the saved order a row has fewer distinct rows above it than a later one, or as many and no larger number. */
  lemma {:induction false} OrderedByAncestors(parent: map<nat, nat>, rows: seq<ImportRow>, i: nat, j: nat)
    requires i < j < |Ordered(parent, rows)|
    ensures var a, b := Ordered(parent, rows)[i].row, Ordered(parent, rows)[j].row;
            var m, n := |Ancestors(parent, a)|, |Ancestors(parent, b)|;
            m < n || (m == n && a <= b)
  {
    OrderedSorts(parent, rows);
    var a, b := Ordered(parent, rows)[i], Ordered(parent, rows)[j];
    assert NotAfter(parent, a, b);
    DepthCountsAncestors(parent, a.row);
    DepthCountsAncestors(parent, b.row);
  }

  /** The line at this place is the last one with its row number. */
  predicate IsLastOfRow(lines: seq<Line>, i: nat) {
    i < |lines| && forall j | i < j < |lines| :: lines[j].row != lines[i].row
  }

  /** The line at this place is the last one with this upper-cased tag. */
  predicate IsLastOfTag(lines: seq<Line>, upper: string -> string, tag: string, i: nat) {
    && i < |lines| && lines[i].assetTag != "" && upper(lines[i].assetTag) == tag
    && forall j | i < j < |lines| :: lines[j].assetTag == "" || upper(lines[j].assetTag) != tag
  }

  /** Of several lines with one row number the last one counts. */
  lemma {:induction false} LastOfRowCounts(lines: seq<Line>, row: nat)
    ensures row in ByRow(lines) ==> exists i: nat :: IsLastOfRow(lines, i) && lines[i].row == row
    ensures forall i: nat | IsLastOfRow(lines, i) && lines[i].row == row ::
              row in ByRow(lines) && ByRow(lines)[row] == lines[i]
  {
    if lines != [] {
      var n := |lines| - 1;
      var front := lines[..n];
      LastOfRowCounts(front, row);
      assert IsLastOfRow(lines, n);
      if lines[n].row != row {
        forall i: nat | i < n && lines[i].row == row ensures IsLastOfRow(lines, i) <==> IsLastOfRow(front, i) {
          assert forall j | i < j < n :: front[j] == lines[j];
        }
      }
    }
  }

  /** Of several lines with one tag the last one counts, and lines without a tag do not. */
  lemma {:induction false} LastOfTagCounts(lines: seq<Line>, upper: string -> string, tag: string)
    ensures tag in RowByTag(lines, upper) ==> exists i: nat :: IsLastOfTag(lines, upper, tag, i)
    ensures forall i: nat | IsLastOfTag(lines, upper, tag, i) ::
              tag in RowByTag(lines, upper) && RowByTag(lines, upper)[tag] == lines[i].row
  {
    if lines != [] {
      var n := |lines| - 1;
      var front := lines[..n];
      LastOfTagCounts(front, upper, tag);
      if lines[n].assetTag != "" && upper(lines[n].assetTag) == tag {
        assert IsLastOfTag(lines, upper, tag, n);
      } else {
        forall i: nat | i < n ensures IsLastOfTag(lines, upper, tag, i) <==> IsLastOfTag(front, upper, tag, i) {
          assert forall j | i <= j < n :: front[j] == lines[j];
        }
      }
    }
  }

  /** A row has a parent row exactly when its line names a tag that a line of the file with a row number carries. */
  lemma ParentsAre(lines: seq<Line>, upper: string -> string, row: nat, up: nat)
    ensures row in Parents(lines, upper) && Parents(lines, upper)[row] == up
            <==> up != 0 && exists i: nat, j: nat ::
                   && IsLastOfRow(lines, i) && lines[i].row == row && lines[i].parentRowTag.Some?
                   && lines[i].parentRowTag.value != ""
                   && IsLastOfTag(lines, upper, lines[i].parentRowTag.value, j) && lines[j].row == up
  {
    LastOfRowCounts(lines, row);
    hide ByRow, RowByTag, IsLastOfRow, IsLastOfTag;
    if row in ByRow(lines) && ByRow(lines)[row].parentRowTag.Some? {
      LastOfTagCounts(lines, upper, ByRow(lines)[row].parentRowTag.value);
    }
  }

  ghost predicate DistinctRows(rows: seq<ImportRow>) {
    forall i, j | 0 <= i < j < |rows| :: rows[i].row != rows[j].row
  }

  /** With distinct row numbers there is only one such order, so no sort that obeys the comparison differs. */
  lemma {:induction false} OrderIsUnique(parent: map<nat, nat>, a: seq<ImportRow>, b: seq<ImportRow>)
    requires IsOrdered(parent, a) && IsOrdered(parent, b) && multiset(a) == multiset(b)
    requires DistinctRows(a) && DistinctRows(b)
    ensures a == b
  {
    hide IsOrdered, DistinctRows;
    if a == [] {
      assert |b| == |multiset(b)| == 0;
    } else {
      HeadsAgree(parent, a, b);
      Tail(parent, a);
      Tail(parent, b);
      OrderIsUnique(parent, a[1..], b[1..]);
      assert a == [a[0]] + a[1..] && b == [b[0]] + b[1..];
    }
  }

  lemma Tail(parent: map<nat, nat>, a: seq<ImportRow>)
    requires a != [] && IsOrdered(parent, a) && DistinctRows(a)
    ensures IsOrdered(parent, a[1..]) && DistinctRows(a[1..])
    ensures multiset(a[1..]) == multiset(a) - multiset{a[0]}
  {
    hide NotAfter;
    assert a == [a[0]] + a[1..];
  }

  lemma HeadsAgree(parent: map<nat, nat>, a: seq<ImportRow>, b: seq<ImportRow>)
    requires IsOrdered(parent, a) && IsOrdered(parent, b) && multiset(a) == multiset(b)
    requires DistinctRows(a) && a != []
    ensures b != [] && a[0] == b[0]
  {
    hide Depth;
    assert |b| == |multiset(b)| == |a|;
    assert a[0] in multiset(b) && b[0] in multiset(a);
    var i :| 0 <= i < |b| && b[i] == a[0];
    var j :| 0 <= j < |a| && a[j] == b[0];
  }

  lemma DistinctAfterSort(parent: map<nat, nat>, rows: seq<ImportRow>)
    requires DistinctRows(rows)
    ensures DistinctRows(Ordered(parent, rows))
  {
    OrderedSorts(parent, rows);
    DistinctIsPermutationInvariant(rows, Ordered(parent, rows));
  }

  lemma DistinctIsPermutationInvariant(a: seq<ImportRow>, b: seq<ImportRow>)
    requires multiset(a) == multiset(b) && DistinctRows(a)
    ensures DistinctRows(b)
  {
    forall i, j | 0 <= i < j < |b| ensures b[i].row != b[j].row {
      if b[i].row == b[j].row {
        assert b[i] in multiset(a) && b[j] in multiset(a);
        var m :| 0 <= m < |a| && a[m] == b[i];
        var n :| 0 <= n < |a| && a[n] == b[j];
        assert m == n;
        TwoPlaces(b, i, j);
        OnePlace(a, m);
      }
    }
  }

  lemma TwoPlaces(b: seq<ImportRow>, i: nat, j: nat)
    requires i < j < |b| && b[i] == b[j]
    ensures multiset(b)[b[i]] >= 2
  {
    assert b == b[..i] + [b[i]] + b[i + 1..j] + [b[j]] + b[j + 1..];
  }

  lemma OnePlace(a: seq<ImportRow>, m: nat)
    requires m < |a| && DistinctRows(a)
    ensures multiset(a)[a[m]] == 1
  {
    assert a == a[..m] + [a[m]] + a[m + 1..];
    assert a[m] !in a[..m] && a[m] !in a[m + 1..];
  }

  /**
   * A parent row is saved before its child exactly when the parent is not on a cycle of parent links, or it
   * has the smaller row number. Without cycles, parents always come first.
   */
  lemma ParentsFirst(parent: map<nat, nat>, rows: seq<ImportRow>, i: nat, j: nat)
    requires DistinctRows(rows)
    requires i < |Ordered(parent, rows)| && j < |Ordered(parent, rows)|
    requires var child, up := Ordered(parent, rows)[j].row, Ordered(parent, rows)[i].row;
             child in parent && parent[child] == up
    ensures var child, up := Ordered(parent, rows)[j].row, Ordered(parent, rows)[i].row;
            i < j <==> !OnCycle(parent, up) || up < child
  {
    hide Depth;
    var s := Ordered(parent, rows);
    var child, up := s[j].row, s[i].row;
    OrderedSorts(parent, rows);
    DistinctAfterSort(parent, rows);
    ChildDepth(parent, child);
    if i < j {
      assert NotAfter(parent, s[i], s[j]);
    } else if j < i {
      assert NotAfter(parent, s[j], s[i]);
    } else {
      assert OnCycle(parent, up) by { AncestorStep(parent, up, up); }
    }
  }

  lemma TwoLines(first: Line, second: Line, upper: string -> string)
    requires first == Line(2, "A", Some("B")) && second == Line(3, "B", Some("A"))
    requires upper("A") == "A" && upper("B") == "B"
    ensures Parents([first, second], upper) == map[2 := 3, 3 := 2]
  {
    assert [first, second][..1] == [first] && [first][..0] == [];
    assert ByRow([first]) == map[2 := first] && RowByTag([first], upper) == map["A" := 2];
    assert ByRow([first, second]) == map[2 := first, 3 := second];
    assert RowByTag([first, second], upper) == map["A" := 2, "B" := 3];
  }

  lemma DepthOfTwo(parent: map<nat, nat>, row: nat, up: nat)
    requires parent == map[row := up, up := row] && row != up
    ensures Depth(parent, row, {}) == 2
  {
    var all := {up} + {row};
    assert Depth(parent, row, all) == 0;
    assert Depth(parent, up, {up}) == 1;
    assert {} + {up} == {up};
  }

  lemma TwoInOrder(parent: map<nat, nat>, a: ImportRow, b: ImportRow)
    requires NotAfter(parent, a, b)
    ensures Ordered(parent, [a, b]) == [a, b]
  {
    hide NotAfter;
    assert [a, b][..1] == [a] && [a][..0] == [];
    assert Ordered(parent, [a]) == [a];
  }

  /** Two lines that name each other: row 3 is the parent of row 2 and is saved behind it. */
  lemma ParentBehindChild(upper: string -> string, a: ImportRow, b: ImportRow)
    requires upper("A") == "A" && upper("B") == "B" && a.row == 2 && b.row == 3
    ensures var parent := Parents([Line(2, "A", Some("B")), Line(3, "B", Some("A"))], upper);
            parent == map[2 := 3, 3 := 2] && Ordered(parent, [a, b]) == [a, b]
  {
    TwoLines(Line(2, "A", Some("B")), Line(3, "B", Some("A")), upper);
    hide Parents, Depth;
    var parent: map<nat, nat> := map[2 := 3, 3 := 2];
    DepthOfTwo(parent, 2, 3);
    assert parent == map[3 := 2, 2 := 3];
    DepthOfTwo(parent, 3, 2);
    TwoInOrder(parent, a, b);
  }

  function Concat(chunks: seq<seq<ImportRow>>): seq<ImportRow> {
    if chunks == [] then [] else Concat(chunks[..|chunks| - 1]) + chunks[|chunks| - 1]
  }

  /** The first `index` rows are cut into parts of `size`, all of them full unless there are no more rows. */
  ghost predicate IsCut(chunks: seq<seq<ImportRow>>, ordered: seq<ImportRow>, index: nat, size: nat) {
    && Concat(chunks) == (if index <= |ordered| then ordered[..index] else ordered)
    && (forall k | 0 <= k < |chunks| :: 0 < |chunks[k]| <= size)
    && (forall k | 0 <= k < |chunks| - 1 :: |chunks[k]| == size)
    && (chunks != [] && index <= |ordered| ==> |chunks[|chunks| - 1]| == size)
  }

  lemma NothingCut(ordered: seq<ImportRow>, size: nat)
    ensures IsCut([], ordered, 0, size)
  {
  }

  lemma OneMoreChunk(chunks: seq<seq<ImportRow>>, ordered: seq<ImportRow>, index: nat, size: nat)
    requires size > 0 && index < |ordered| && IsCut(chunks, ordered, index, size)
    ensures var end := if index + size <= |ordered| then index + size else |ordered|;
            IsCut(chunks + [ordered[index..end]], ordered, index + size, size)
  {
    var end := if index + size <= |ordered| then index + size else |ordered|;
    var chunk := ordered[index..end];
    assert (chunks + [chunk])[..|chunks|] == chunks;
    assert ordered[..index] + chunk == ordered[..end];
    assert ordered[..|ordered|] == ordered;
  }

  /** `chunkForSave`: the sorted rows cut into parts of `size`, only the last of which may be shorter. */
  method ChunkForSave(rows: seq<ImportRow>, lines: seq<Line>, upper: string -> string, size: nat)
    returns (chunks: seq<seq<ImportRow>>)
    requires size > 0
    ensures Concat(chunks) == Ordered(Parents(lines, upper), rows)
    ensures multiset(Concat(chunks)) == multiset(rows)
    ensures forall k | 0 <= k < |chunks| :: 0 < |chunks[k]| <= size
    ensures forall k | 0 <= k < |chunks| - 1 :: |chunks[k]| == size
  {
    var ordered := Ordered(Parents(lines, upper), rows);
    OrderedSorts(Parents(lines, upper), rows);
    hide Ordered, Parents, Concat;
    chunks := [];
    var index := 0;
    assert IsCut(chunks, ordered, 0, size) by { NothingCut(ordered, size); }
    while index < |ordered|
      invariant IsCut(chunks, ordered, index, size)
    {
      OneMoreChunk(chunks, ordered, index, size);
      var end := if index + size <= |ordered| then index + size else |ordered|;
      chunks := chunks + [ordered[index..end]];
      index := index + size;
    }
    assert ordered[..|ordered|] == ordered;
  }
}
