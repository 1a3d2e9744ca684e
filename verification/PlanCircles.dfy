/** How the planner of the asset import removes circles of parent tags before the rows are sent to the browser. */
module PlanCircles {
  import opened Options
  import opened ParentChain
  import opened SaveOrder

  /** `fileRowsByTag`: the place of the last line with each upper-cased tag; lines without a tag are left out. */
  function IndexByTag(lines: seq<Line>, upper: string -> string): (index: map<string, nat>)
    ensures forall tag | tag in index ::
              index[tag] < |lines| && lines[index[tag]].assetTag != "" && upper(lines[index[tag]].assetTag) == tag
  {
    if lines == [] then map[] else
      var n := |lines| - 1;
      var front := IndexByTag(lines[..n], upper);
      if lines[n].assetTag == "" then front else front[upper(lines[n].assetTag) := n]
  }

  /** `cursor` as a condition: a tag that is not empty. */
  predicate IsTag(cursor: Option<string>) { cursor.Some? && cursor.value != "" }

  /** From the tag of a line to the tag of its parent. */
  function Links(lines: seq<Line>, upper: string -> string): map<string, string> {
    var index := IndexByTag(lines, upper);
    map tag | tag in index && IsTag(lines[index[tag]].parentRowTag) :: lines[index[tag]].parentRowTag.value
  }

  function Next(links: map<string, string>, tag: string): Option<string> {
    if tag in links then Some(links[tag]) else None
  }

  function StillToVisit(links: map<string, string>, visited: set<string>, cursor: Option<string>): set<string> {
    links.Values + (if IsTag(cursor) then {cursor.value} else {}) - visited
  }

  /** The walk from `cursor` comes to a tag that it has visited. */
  predicate MeetsVisited(links: map<string, string>, visited: set<string>, cursor: Option<string>)
    decreases StillToVisit(links, visited, cursor)
  {
    IsTag(cursor) && (cursor.value in visited
                      || MeetsVisited(links, visited + {cursor.value}, Next(links, cursor.value)))
  }

  /** The line's own walk goes round in a circle. */
  predicate Circles(lines: seq<Line>, upper: string -> string, i: nat)
    requires i < |lines|
  {
    MeetsVisited(Links(lines, upper), {upper(lines[i].assetTag)}, lines[i].parentRowTag)
  }

  /** The lines after the first n of them were checked in turn. */
  function Cleared(lines: seq<Line>, upper: string -> string, n: nat): (r: seq<Line>)
    requires n <= |lines|
    ensures |r| == |lines|
  {
    if n == 0 then lines else
      var s := Cleared(lines, upper, n - 1);
      if Circles(s, upper, n - 1) then s[n - 1 := s[n - 1].(parentRowTag := None)] else s
  }

  /** The planner's loop over the lines, with its walk along the parent tags. */
  method ClearCircles(lines: array<Line>, upper: string -> string)
    modifies lines
    ensures lines[..] == Cleared(old(lines[..]), upper, lines.Length)
  {
    hide IndexByTag, Links, Circles, MeetsVisited, Next;
    ghost var was := lines[..];
    var fileRowsByTag := IndexByTag(lines[..], upper);
    for i := 0 to lines.Length
      invariant lines[..] == Cleared(was, upper, i)
      invariant fileRowsByTag == IndexByTag(lines[..], upper)
    {
      ghost var now := lines[..];
      WalkStarts(now, upper, i);
      var visited := {upper(lines[i].assetTag)};
      var cursor := lines[i].parentRowTag;
      while IsTag(cursor)
        invariant lines[..] == now
        invariant MeetsVisited(Links(now, upper), visited, cursor) == Circles(now, upper, i)
        decreases StillToVisit(Links(now, upper), visited, cursor)
      {
        WalkStep(now, upper, visited, cursor.value);
        if cursor.value in visited {
          SameIndex(now, upper, i);
          lines[i] := lines[i].(parentRowTag := None);
          assert lines[..] == now[i := now[i].(parentRowTag := None)];
          break;
        }
        visited := visited + {cursor.value};
        cursor := if cursor.value in fileRowsByTag then lines[fileRowsByTag[cursor.value]].parentRowTag else None;
      }
      if !IsTag(cursor) { WalkEnds(Links(now, upper), visited, cursor); }
    }
  }

  lemma WalkStarts(lines: seq<Line>, upper: string -> string, i: nat)
    requires i < |lines|
    ensures Circles(lines, upper, i)
            == MeetsVisited(Links(lines, upper), {upper(lines[i].assetTag)}, lines[i].parentRowTag)
  {
  }

  lemma WalkEnds(links: map<string, string>, visited: set<string>, cursor: Option<string>)
    requires !IsTag(cursor)
    ensures !MeetsVisited(links, visited, cursor)
  {
  }

  /** One round of the walk: the line found for a tag holds the next tag, if any. */
  lemma WalkStep(lines: seq<Line>, upper: string -> string, visited: set<string>, tag: string)
    requires tag != ""
    ensures var links, index := Links(lines, upper), IndexByTag(lines, upper);
            var next := if tag in index then lines[index[tag]].parentRowTag else None;
            && (tag in visited ==> MeetsVisited(links, visited, Some(tag)))
            && (tag !in visited ==>
                  MeetsVisited(links, visited, Some(tag)) == MeetsVisited(links, visited + {tag}, next))
            && (tag !in visited ==>
                  StillToVisit(links, visited + {tag}, next) < StillToVisit(links, visited, Some(tag)))
  {
    var links, index := Links(lines, upper), IndexByTag(lines, upper);
    var next := if tag in index then lines[index[tag]].parentRowTag else None;
    if IsTag(next) {
      assert tag in links && links[tag] == next.value;
    }
    assert IsTag(next) ==> next.value in links.Values;
    if tag !in visited {
      assert tag in StillToVisit(links, visited, Some(tag)) && tag !in StillToVisit(links, visited + {tag}, next);
    }
  }

  /** Removing a link leaves the tags where they are. */
  lemma SameIndex(lines: seq<Line>, upper: string -> string, i: nat)
    requires i < |lines|
    ensures IndexByTag(lines[i := lines[i].(parentRowTag := None)], upper) == IndexByTag(lines, upper)
  {
    SameTagsSameIndex(lines, lines[i := lines[i].(parentRowTag := None)], upper);
  }

  lemma {:induction false} SameTagsSameIndex(a: seq<Line>, b: seq<Line>, upper: string -> string)
    requires |a| == |b| && forall i | 0 <= i < |a| :: a[i].assetTag == b[i].assetTag
    ensures IndexByTag(a, upper) == IndexByTag(b, upper)
  {
    if a != [] { SameTagsSameIndex(a[..|a| - 1], b[..|b| - 1], upper); }
  }

  // ---------- What the walk tells ----------

  /** The chain of tags above `tag` comes to an end. */
  ghost predicate Ends(links: map<string, string>, tag: string) {
    exists k: nat :: Up(links, tag, k).None?
  }

  /** The chain of tags from `tag` on comes to `goal`. */
  ghost predicate Reaches(links: map<string, string>, tag: string, goal: string) {
    exists k: nat :: Up(links, tag, k) == Some(goal)
  }

  lemma UpStays<T>(links: map<T, T>, tag: T, k: nat, n: nat)
    requires Up(links, tag, k).None? && k <= n
    ensures Up(links, tag, n).None?
    decreases n
  {
    if k < n { UpStays(links, tag, k, n - 1); }
  }

  lemma EndsStep(links: map<string, string>, tag: string)
    requires tag in links
    ensures Ends(links, tag) <==> Ends(links, links[tag])
  {
    if k: nat :| Up(links, tag, k).None? {
      assert Up(links, tag, 0) == Some(tag);
      UpShift(links, tag, k - 1);
    }
    if k: nat :| Up(links, links[tag], k).None? {
      UpShift(links, tag, k);
    }
  }

  lemma ReachesStep(links: map<string, string>, tag: string, goal: string)
    requires tag in links
    ensures Reaches(links, tag, goal) <==> goal == tag || Reaches(links, links[tag], goal)
  {
    assert Up(links, tag, 0) == Some(tag);
    if k: nat :| Up(links, tag, k) == Some(goal) {
      if k > 0 { UpShift(links, tag, k - 1); }
    }
    if k: nat :| Up(links, links[tag], k) == Some(goal) {
      UpShift(links, tag, k);
    }
  }

  lemma {:induction false} CycleNeverEnds<T>(links: map<T, T>, tag: T, length: nat, k: nat)
    requires length >= 1 && Up(links, tag, length) == Some(tag)
    ensures Up(links, tag, k).Some?
    decreases k
  {
    if k <= length {
      if Up(links, tag, k).None? { UpStays(links, tag, k, length); }
    } else {
      UpTwice(links, tag, length, tag, k - length);
      CycleNeverEnds(links, tag, length, k - length);
    }
  }

  /** The walk comes to a visited tag exactly when the chain reaches one of those it started with or never ends. */
  lemma {:induction false} MeetsIff(links: map<string, string>, visited: set<string>, tag: string)
    requires tag != "" && "" !in links.Values
    ensures MeetsVisited(links, visited, Some(tag))
            <==> !Ends(links, tag) || exists goal | goal in visited :: Reaches(links, tag, goal)
    decreases StillToVisit(links, visited, Some(tag))
  {
    assert Up(links, tag, 0) == Some(tag);
    if tag in visited {
      assert Reaches(links, tag, tag);
    } else if tag in links {
      var next := links[tag];
      WalkShrinks(links, visited, tag);
      MeetsIff(links, visited + {tag}, next);
      EndsStep(links, tag);
      forall goal ensures Reaches(links, tag, goal) <==> goal == tag || Reaches(links, next, goal) {
        ReachesStep(links, tag, goal);
      }
      if Reaches(links, next, tag) { BackToTag(links, tag); }
    } else {
      assert Up(links, tag, 1).None?;
      forall goal | goal in visited ensures !Reaches(links, tag, goal) { ReachesNothing(links, tag, goal); }
    }
  }

  lemma WalkShrinks(links: map<string, string>, visited: set<string>, tag: string)
    requires tag != "" && tag !in visited && tag in links && "" !in links.Values
    ensures StillToVisit(links, visited + {tag}, Some(links[tag])) < StillToVisit(links, visited, Some(tag))
  {
    assert links[tag] in links.Values;
    assert tag in StillToVisit(links, visited, Some(tag));
  }

  lemma BackToTag(links: map<string, string>, tag: string)
    requires tag in links && Reaches(links, links[tag], tag)
    ensures !Ends(links, tag)
  {
    var k: nat :| Up(links, links[tag], k) == Some(tag);
    UpShift(links, tag, k);
    forall n: nat ensures Up(links, tag, n).Some? { CycleNeverEnds(links, tag, k + 1, n); }
  }

  lemma ReachesNothing(links: map<string, string>, tag: string, goal: string)
    requires tag !in links && tag != goal
    ensures !Reaches(links, tag, goal)
  {
    assert Up(links, tag, 1).None?;
    if k: nat :| Up(links, tag, k) == Some(goal) {
      if k > 0 { UpStays(links, tag, 1, k); }
    }
  }

  /** A line is taken for circling exactly when its parents never end or lead back to its own tag. */
  lemma CirclesIff(lines: seq<Line>, upper: string -> string, i: nat)
    requires i < |lines|
    ensures var links, up := Links(lines, upper), lines[i].parentRowTag;
            Circles(lines, upper, i)
            <==> IsTag(up) && (!Ends(links, up.value) || Reaches(links, up.value, upper(lines[i].assetTag)))
  {
    var links, up := Links(lines, upper), lines[i].parentRowTag;
    if IsTag(up) {
      MeetsIff(links, {upper(lines[i].assetTag)}, up.value);
    }
  }

  // ---------- Removing links ----------

  /** Every line keeps its row and tag, and its link unless that is removed. */
  predicate FewerLinks(r: seq<Line>, lines: seq<Line>) {
    && |r| == |lines|
    && forall i | 0 <= i < |lines| :: r[i] == lines[i] || r[i] == lines[i].(parentRowTag := None)
  }

  lemma LinkIsKept(r: seq<Line>, lines: seq<Line>, upper: string -> string, tag: string)
    requires FewerLinks(r, lines) && tag in Links(r, upper)
    ensures tag in Links(lines, upper) && Links(lines, upper)[tag] == Links(r, upper)[tag]
  {
    SameTagsSameIndex(r, lines, upper);
    hide IndexByTag;
    var i := IndexByTag(r, upper)[tag];
    assert r[i] == lines[i];
  }

  lemma {:induction false} FewerLinksUp(r: seq<Line>, lines: seq<Line>, upper: string -> string, tag: string, k: nat)
    requires FewerLinks(r, lines)
    ensures Up(Links(r, upper), tag, k).Some? ==> Up(Links(r, upper), tag, k) == Up(Links(lines, upper), tag, k)
  {
    hide Links, FewerLinks;
    if k > 0 {
      FewerLinksUp(r, lines, upper, tag, k - 1);
      var below := Up(Links(r, upper), tag, k - 1);
      if below.Some? && below.value in Links(r, upper) { LinkIsKept(r, lines, upper, below.value); }
    }
  }

  /** With fewer links fewer chains circle. */
  lemma FewerCircles(r: seq<Line>, lines: seq<Line>, upper: string -> string, i: nat)
    requires FewerLinks(r, lines) && i < |r| && Circles(r, upper, i)
    ensures Circles(lines, upper, i)
  {
    CirclesIff(r, upper, i);
    CirclesIff(lines, upper, i);
    hide Circles, Links;
    var tag, goal := r[i].parentRowTag.value, upper(r[i].assetTag);
    forall k: nat
      ensures Up(Links(r, upper), tag, k).Some? ==> Up(Links(r, upper), tag, k) == Up(Links(lines, upper), tag, k)
    {
      FewerLinksUp(r, lines, upper, tag, k);
    }
  }

  /** The lines r have fewer links, and only lines that circle have lost theirs. */
  predicate OnlyCirclesLost(r: seq<Line>, lines: seq<Line>, upper: string -> string) {
    FewerLinks(r, lines) && forall i | 0 <= i < |lines| && r[i] != lines[i] :: Circles(lines, upper, i)
  }

  lemma OneMoreLost(s: seq<Line>, lines: seq<Line>, upper: string -> string, n: nat)
    requires OnlyCirclesLost(s, lines, upper) && n < |s| && Circles(s, upper, n)
    ensures OnlyCirclesLost(s[n := s[n].(parentRowTag := None)], lines, upper)
  {
    FewerCircles(s, lines, upper, n);
    hide Circles;
  }

  /** The planner only removes links, and only those of lines whose own walk in the file goes round in a circle. */
  lemma {:induction false} OnlyCirclesAreCleared(lines: seq<Line>, upper: string -> string, n: nat)
    requires n <= |lines|
    ensures OnlyCirclesLost(Cleared(lines, upper, n), lines, upper)
  {
    if n > 0 {
      hide Circles, OnlyCirclesLost;
      var s := Cleared(lines, upper, n - 1);
      OnlyCirclesAreCleared(lines, upper, n - 1);
      if Circles(s, upper, n - 1) { OneMoreLost(s, lines, upper, n - 1); }
    } else {
      hide Circles;
    }
  }

  /** The lines that were checked do not circle any more. */
  lemma {:induction false} CheckedDoNotCircle(lines: seq<Line>, upper: string -> string, n: nat)
    requires n <= |lines|
    ensures forall i | 0 <= i < n :: !Circles(Cleared(lines, upper, n), upper, i)
  {
    if n > 0 {
      var s, r := Cleared(lines, upper, n - 1), Cleared(lines, upper, n);
      CheckedDoNotCircle(lines, upper, n - 1);
      forall i | 0 <= i < n ensures !Circles(r, upper, i) {
        if Circles(r, upper, i) { FewerCircles(r, s, upper, i); }
      }
    }
  }

  /** Nothing is removed exactly when no line circles. */
  lemma UnchangedIffNoCircles(lines: seq<Line>, upper: string -> string)
    ensures Cleared(lines, upper, |lines|) == lines <==> forall i | 0 <= i < |lines| :: !Circles(lines, upper, i)
  {
    CheckedDoNotCircle(lines, upper, |lines|);
    OnlyCirclesAreCleared(lines, upper, |lines|);
  }

  // ---------- Which lines lose their link ----------

  lemma {:induction false} NotYetChecked(lines: seq<Line>, upper: string -> string, i: nat, n: nat)
    requires n <= i < |lines|
    ensures Cleared(lines, upper, n)[i] == lines[i]
  {
    hide Circles;
    if n > 0 { NotYetChecked(lines, upper, i, n - 1); }
  }

  /** A line loses its link exactly when it circles among the lines as they stand at its turn. */
  lemma {:induction false} LosesLinkIff(lines: seq<Line>, upper: string -> string, i: nat, n: nat)
    requires i < n <= |lines|
    ensures Cleared(lines, upper, n)[i]
            == if Circles(Cleared(lines, upper, i), upper, i) then lines[i].(parentRowTag := None) else lines[i]
  {
    hide Circles;
    if n == i + 1 { NotYetChecked(lines, upper, i, i); } else { LosesLinkIff(lines, upper, i, n - 1); }
  }

  /** The tag stands on the cycle of links that x stands on. */
  ghost predicate SameCycle(lines: seq<Line>, upper: string -> string, x: string, y: string) {
    OnCycle(Links(lines, upper), x) && IsAncestor(Links(lines, upper), x, y)
  }

  /** The place of the line with this tag on the cycle. */
  function Place(lines: seq<Line>, upper: string -> string, y: string): nat {
    if y in IndexByTag(lines, upper) then IndexByTag(lines, upper)[y] else 0
  }

  /** What is known of a line on a cycle. */
  lemma LineOnCycle(lines: seq<Line>, upper: string -> string, x: string, y: string)
    requires SameCycle(lines, upper, x, y)
    ensures y in IndexByTag(lines, upper) && y in Links(lines, upper) && Place(lines, upper, y) < |lines|
    ensures var line := lines[Place(lines, upper, y)];
            upper(line.assetTag) == y && line.parentRowTag == Some(Links(lines, upper)[y]) && IsTag(line.parentRowTag)
    ensures SameCycle(lines, upper, x, Links(lines, upper)[y])
  {
    NextOnCycle(Links(lines, upper), x, y);
  }

  /** As long as no line of the cycle was checked, the cycle is there. */
  lemma CycleBefore(lines: seq<Line>, upper: string -> string, x: string, y: string, n: nat)
    requires n <= |lines| && SameCycle(lines, upper, x, y)
    requires forall z | SameCycle(lines, upper, x, z) :: n <= Place(lines, upper, z)
    ensures !Ends(Links(Cleared(lines, upper, n), upper), y)
  {
    var links, left := Links(lines, upper), Links(Cleared(lines, upper, n), upper);
    OnlyCirclesAreCleared(lines, upper, n);
    SameTagsSameIndex(Cleared(lines, upper, n), lines, upper);
    forall z | z in links && IsAncestor(links, x, z) ensures z in left && left[z] == links[z] {
      assert SameCycle(lines, upper, x, z);
      LineOnCycle(lines, upper, x, z);
      NotYetChecked(lines, upper, Place(lines, upper, z), n);
    }
    hide Links, Cleared, IndexByTag;
    forall k: nat ensures Up(left, y, k).Some? { CycleStays(links, left, x, y, k); }
  }

  /** Behind a line of the cycle that lost its link the walk comes to an end. */
  lemma CycleAfter(lines: seq<Line>, upper: string -> string, x: string, y: string, z: string, n: nat)
    requires n <= |lines| && SameCycle(lines, upper, x, y) && SameCycle(lines, upper, x, z)
    requires z !in Links(Cleared(lines, upper, n), upper)
    ensures Ends(Links(Cleared(lines, upper, n), upper), y)
  {
    var links, left := Links(lines, upper), Links(Cleared(lines, upper, n), upper);
    CycleReaches(links, x, y, z);
    var k: nat :| k >= 1 && Up(links, y, k) == Some(z);
    OnlyCirclesAreCleared(lines, upper, n);
    FewerLinksUp(Cleared(lines, upper, n), lines, upper, y, k);
    assert Up(left, y, k + 1).None?;
  }

  /** The first line of a cycle loses its link. */
  lemma FirstLosesLink(lines: seq<Line>, upper: string -> string, x: string, y: string, n: nat)
    requires SameCycle(lines, upper, x, y) && Place(lines, upper, y) < n <= |lines|
    requires forall z | SameCycle(lines, upper, x, z) :: Place(lines, upper, y) <= Place(lines, upper, z)
    ensures Cleared(lines, upper, n)[Place(lines, upper, y)] == lines[Place(lines, upper, y)].(parentRowTag := None)
  {
    var i := Place(lines, upper, y);
    LineOnCycle(lines, upper, x, y);
    NotYetChecked(lines, upper, i, i);
    CycleBefore(lines, upper, x, Links(lines, upper)[y], i);
    CirclesIff(Cleared(lines, upper, i), upper, i);
    LosesLinkIff(lines, upper, i, n);
  }

  /** A tag keeps its link as long as its line does. */
  lemma LinkFollowsLine(lines: seq<Line>, upper: string -> string, y: string, n: nat)
    requires n <= |lines| && y in Links(lines, upper)
    ensures var s, i := Cleared(lines, upper, n), Place(lines, upper, y);
            && i < |lines|
            && (s[i].parentRowTag.None? ==> y !in Links(s, upper))
            && (s[i] == lines[i] ==> y in Links(s, upper) && Links(s, upper)[y] == Links(lines, upper)[y])
  {
    OnlyCirclesAreCleared(lines, upper, n);
    SameTagsSameIndex(Cleared(lines, upper, n), lines, upper);
    hide Cleared, Circles;
  }

  /** Every other line of the cycle keeps its link. */
  lemma OthersKeepLink(lines: seq<Line>, upper: string -> string, x: string, y: string, first: string)
    requires SameCycle(lines, upper, x, y) && SameCycle(lines, upper, x, first)
    requires Place(lines, upper, first) < Place(lines, upper, y)
    requires forall z | SameCycle(lines, upper, x, z) :: Place(lines, upper, first) <= Place(lines, upper, z)
    ensures Cleared(lines, upper, |lines|)[Place(lines, upper, y)] == lines[Place(lines, upper, y)]
  {
    var j := Place(lines, upper, y);
    LineOnCycle(lines, upper, x, y);
    LineOnCycle(lines, upper, x, first);
    var s := Cleared(lines, upper, j);
    FirstLosesLink(lines, upper, x, first, j);
    NotYetChecked(lines, upper, j, j);
    hide Circles;
    LinkFollowsLine(lines, upper, first, j);
    LinkFollowsLine(lines, upper, y, j);
    CycleAfter(lines, upper, x, y, first, j);
    hide Cleared, Links, IndexByTag, SameCycle, Place;
    EndsStep(Links(s, upper), y);
    if Reaches(Links(s, upper), Links(s, upper)[y], y) { BackToTag(Links(s, upper), y); }
    CirclesIff(s, upper, j);
    LosesLinkIff(lines, upper, j, |lines|);
  }

  lemma {:induction false} FirstOfCycle(lines: seq<Line>, upper: string -> string, x: string, y: string)
    returns (first: string)
    requires SameCycle(lines, upper, x, y)
    ensures SameCycle(lines, upper, x, first) && Place(lines, upper, first) <= Place(lines, upper, y)
    ensures forall z | SameCycle(lines, upper, x, z) :: Place(lines, upper, first) <= Place(lines, upper, z)
    decreases Place(lines, upper, y)
  {
    if z :| SameCycle(lines, upper, x, z) && Place(lines, upper, z) < Place(lines, upper, y) {
      first := FirstOfCycle(lines, upper, x, z);
    } else {
      first := y;
    }
  }

  /** Of every cycle in the file exactly one line loses its link: the one that comes first in the file. */
  lemma EachCycleLosesOneLink(lines: seq<Line>, upper: string -> string, x: string, y: string)
    requires SameCycle(lines, upper, x, y)
    ensures Cleared(lines, upper, |lines|)[Place(lines, upper, y)] != lines[Place(lines, upper, y)]
            <==> forall z | SameCycle(lines, upper, x, z) :: Place(lines, upper, y) <= Place(lines, upper, z)
  {
    LineOnCycle(lines, upper, x, y);
    var first := FirstOfCycle(lines, upper, x, y);
    hide SameCycle, Place, Cleared;
    if Place(lines, upper, first) == Place(lines, upper, y) {
      FirstLosesLink(lines, upper, x, y, |lines|);
    } else {
      OthersKeepLink(lines, upper, x, y, first);
    }
  }

  // ---------- The browser's parent map ----------

  ghost predicate DistinctLines(lines: seq<Line>) {
    forall i, j | 0 <= i < j < |lines| :: lines[i].row != lines[j].row
  }

  lemma {:induction false} LineOfRow(lines: seq<Line>, i: nat)
    requires DistinctLines(lines) && i < |lines|
    ensures lines[i].row in ByRow(lines) && ByRow(lines)[lines[i].row] == lines[i]
  {
    var n := |lines| - 1;
    if i < n { LineOfRow(lines[..n], i); }
  }

  lemma {:induction false} RowsHaveLines(lines: seq<Line>, row: nat)
    requires row in ByRow(lines)
    ensures ByRow(lines)[row] in lines && ByRow(lines)[row].row == row
  {
    var n := |lines| - 1;
    if row != lines[n].row { RowsHaveLines(lines[..n], row); }
  }

  lemma {:induction false} RowOfTag(lines: seq<Line>, upper: string -> string)
    ensures RowByTag(lines, upper).Keys == IndexByTag(lines, upper).Keys
    ensures forall tag | tag in IndexByTag(lines, upper) ::
              RowByTag(lines, upper)[tag] == lines[IndexByTag(lines, upper)[tag]].row
  {
    if lines != [] { RowOfTag(lines[..|lines| - 1], upper); }
  }

  /** A step over the rows is a step over the tags. */
  lemma ParentRowHasTag(lines: seq<Line>, upper: string -> string, row: nat)
    requires DistinctLines(lines) && row in Parents(lines, upper)
    ensures var byRow, index, parent := ByRow(lines), IndexByTag(lines, upper), Parents(lines, upper)[row];
            && row in byRow && IsTag(byRow[row].parentRowTag) && byRow[row].parentRowTag.value in index
            && parent in byRow && byRow[parent] == lines[index[byRow[row].parentRowTag.value]]
            && byRow[parent].row == parent
  {
    RowOfTag(lines, upper);
    LineOfRow(lines, IndexByTag(lines, upper)[ByRow(lines)[row].parentRowTag.value]);
  }

  lemma LinkOfTag(lines: seq<Line>, upper: string -> string, tag: string)
    requires tag in IndexByTag(lines, upper) && IsTag(lines[IndexByTag(lines, upper)[tag]].parentRowTag)
    ensures tag in Links(lines, upper)
    ensures Links(lines, upper)[tag] == lines[IndexByTag(lines, upper)[tag]].parentRowTag.value
  {
  }

  lemma {:induction false} RowsFollowTags(lines: seq<Line>, upper: string -> string, row: nat, k: nat)
    requires DistinctLines(lines) && row in Parents(lines, upper) && row in ByRow(lines)
    requires IsTag(ByRow(lines)[row].parentRowTag)
    requires Up(Parents(lines, upper), row, k + 1).Some?
    ensures var byRow, index := ByRow(lines), IndexByTag(lines, upper);
            var at := Up(Links(lines, upper), byRow[row].parentRowTag.value, k);
            var up := Up(Parents(lines, upper), row, k + 1);
            at.Some? && at.value in index && up.value in byRow && byRow[up.value] == lines[index[at.value]]
  {
    hide Parents, ByRow, IndexByTag, Links, DistinctLines;
    var parents, byRow, index := Parents(lines, upper), ByRow(lines), IndexByTag(lines, upper);
    assert Up(parents, row, 0) == Some(row);
    assert Up(Links(lines, upper), byRow[row].parentRowTag.value, 0) == Some(byRow[row].parentRowTag.value);
    if k == 0 {
      ParentRowHasTag(lines, upper, row);
    } else {
      RowsFollowTags(lines, upper, row, k - 1);
      var below := Up(parents, row, k).value;
      ParentRowHasTag(lines, upper, below);
      LinkOfTag(lines, upper, Up(Links(lines, upper), byRow[row].parentRowTag.value, k - 1).value);
    }
  }

  /** A row above itself has a line that circles. */
  lemma RowCycleCircles(lines: seq<Line>, upper: string -> string, row: nat) returns (i: nat)
    requires DistinctLines(lines) && row in Parents(lines, upper) && OnCycle(Parents(lines, upper), row)
    ensures i < |lines| && Circles(lines, upper, i)
  {
    ParentRowHasTag(lines, upper, row);
    RowsHaveLines(lines, row);
    hide Parents, ByRow, IndexByTag, Links, DistinctLines, Circles, OnCycle, Up;
    i :| 0 <= i < |lines| && lines[i] == ByRow(lines)[row];
    forall k: nat ensures Up(Links(lines, upper), lines[i].parentRowTag.value, k).Some? {
      TagChainGoesOn(lines, upper, row, k);
    }
    CirclesIff(lines, upper, i);
  }

  lemma TagChainGoesOn(lines: seq<Line>, upper: string -> string, row: nat, k: nat)
    requires DistinctLines(lines) && row in Parents(lines, upper) && OnCycle(Parents(lines, upper), row)
    requires row in ByRow(lines) && IsTag(ByRow(lines)[row].parentRowTag)
    ensures Up(Links(lines, upper), ByRow(lines)[row].parentRowTag.value, k).Some?
  {
    hide Parents, ByRow, IndexByTag, Links, DistinctLines, Up;
    var length: nat :| length >= 1 && Up(Parents(lines, upper), row, length) == Some(row);
    CycleNeverEnds(Parents(lines, upper), row, length, k + 1);
    RowsFollowTags(lines, upper, row, k);
  }

  /** Behind the planner the parent rows of the browser have no cycle. */
  lemma NoCycleIsLeft(lines: seq<Line>, upper: string -> string)
    requires DistinctLines(lines)
    ensures Acyclic(Parents(Cleared(lines, upper, |lines|), upper))
  {
    var r := Cleared(lines, upper, |lines|);
    OnlyCirclesAreCleared(lines, upper, |lines|);
    CheckedDoNotCircle(lines, upper, |lines|);
    hide Circles, Parents, Cleared;
    forall row | row in Parents(r, upper) ensures !OnCycle(Parents(r, upper), row) {
      if OnCycle(Parents(r, upper), row) {
        var i := RowCycleCircles(r, upper, row);
      }
    }
  }

  /** So every parent is saved before its child. */
  lemma PlannedParentsFirst(lines: seq<Line>, upper: string -> string, rows: seq<ImportRow>, i: nat, j: nat)
    requires DistinctLines(lines) && DistinctRows(rows)
    requires var parents := Parents(Cleared(lines, upper, |lines|), upper);
             var saved := Ordered(parents, rows);
             && i < |saved| && j < |saved|
             && saved[j].row in parents && parents[saved[j].row] == saved[i].row
    ensures i < j
  {
    var parents := Parents(Cleared(lines, upper, |lines|), upper);
    var up := Ordered(parents, rows)[i].row;
    NoCycleIsLeft(lines, upper);
    ParentsFirst(parents, rows, i, j);
    if up !in parents { AncestorStep(parents, up, up); }
  }
}
