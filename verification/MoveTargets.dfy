/** The places a location can be moved to: every active location outside the moved one's own subtree. */
module MoveTargets {
  import opened Options
  import opened ParentChain

  datatype Location = Location(id: string, name: string, code: string, isActive: bool, children: seq<Location>)

  datatype Target = Target(id: string, caption: string, depth: nat)

  function TargetOf(node: Location, depth: nat): Target {
    Target(node.id, node.name + " (" + node.code + ")", depth)
  }

  // ---------- The walk ----------

  /** What the walk appends for one location. */
  function ListedNode(node: Location, depth: nat, movingId: string): seq<Target>
    decreases node
  {
    if node.id == movingId then []
    else (if node.isActive then [TargetOf(node, depth)] else []) + Listed(node.children, depth + 1, movingId)
  }

  /** What the walk appends for a list of locations, skipping the moved one and everything inside it. */
  function Listed(nodes: seq<Location>, depth: nat, movingId: string): seq<Target>
    decreases nodes
  {
    if nodes == [] then []
    else Listed(nodes[..|nodes| - 1], depth, movingId) + ListedNode(nodes[|nodes| - 1], depth, movingId)
  }

  /** The list that the recursive walk appends to. */
  class Walker {
    const movingId: string
    var out: seq<Target>

    constructor (movingId: string)
      ensures this.movingId == movingId && out == []
    {
      this.movingId := movingId;
      out := [];
    }

    method Walk(nodes: seq<Location>, depth: nat)
      modifies this
      ensures out == old(out) + Listed(nodes, depth, movingId)
      decreases nodes
    {
      for i := 0 to |nodes|
        invariant out == old(out) + Listed(nodes[..i], depth, movingId)
      {
        var node := nodes[i];
        assert nodes[..i + 1][..i] == nodes[..i];
        if node.id == movingId {
          continue;
        }
        if node.isActive {
          out := out + [TargetOf(node, depth)];
        }
        Walk(node.children, depth + 1);
      }
      assert nodes[..|nodes|] == nodes;
    }
  }

  /** `moveTargets` */
  method MoveTargets(roots: seq<Location>, movingId: string) returns (targets: seq<Target>)
    ensures targets == Listed(roots, 0, movingId)
  {
    var walker := new Walker(movingId);
    walker.Walk(roots, 0);
    targets := walker.out;
  }

  // ---------- The forest, node by node ----------

  /** A location met in preorder, with the ids from its root down to itself. */
  datatype Visit = Visit(node: Location, path: seq<string>)

  /** Every location of the forest in preorder; `path` leads to the parent of the list. */
  function Visits(nodes: seq<Location>, path: seq<string>): (vs: seq<Visit>)
    ensures forall k | 0 <= k < |vs| :: |vs[k].path| > |path| && path <= vs[k].path
                                        && vs[k].path[|vs[k].path| - 1] == vs[k].node.id
    decreases nodes
  {
    if nodes == [] then [] else
      var node := nodes[|nodes| - 1];
      var here := path + [node.id];
      Visits(nodes[..|nodes| - 1], path) + [Visit(node, here)] + Visits(node.children, here)
  }

  predicate Offered(v: Visit, movingId: string) { v.node.isActive && movingId !in v.path }

  /** The visits that are offered, as targets with their true depth. */
  function Select(vs: seq<Visit>, movingId: string): seq<Target>
    requires forall k | 0 <= k < |vs| :: |vs[k].path| > 0
  {
    if vs == [] then [] else
      var v := vs[|vs| - 1];
      Select(vs[..|vs| - 1], movingId) + if Offered(v, movingId) then [TargetOf(v.node, |v.path| - 1)] else []
  }

  lemma {:induction false} SelectConcat(a: seq<Visit>, b: seq<Visit>, movingId: string)
    requires forall k | 0 <= k < |a| :: |a[k].path| > 0
    requires forall k | 0 <= k < |b| :: |b[k].path| > 0
    ensures Select(a + b, movingId) == Select(a, movingId) + Select(b, movingId)
  {
    if b == [] {
      assert a + b == a;
    } else {
      assert (a + b)[..|a + b| - 1] == a + b[..|b| - 1];
      SelectConcat(a, b[..|b| - 1], movingId);
    }
  }

  lemma {:induction false} SelectInside(vs: seq<Visit>, movingId: string)
    requires forall k | 0 <= k < |vs| :: |vs[k].path| > 0 && movingId in vs[k].path
    ensures Select(vs, movingId) == []
  {
    if vs != [] { SelectInside(vs[..|vs| - 1], movingId); }
  }

  /** The walk lists, in preorder and with true depth, the active locations whose path avoids the moved one. */
  lemma {:induction false} ListedIsSelected(nodes: seq<Location>, path: seq<string>, movingId: string)
    requires movingId !in path
    ensures Listed(nodes, |path|, movingId) == Select(Visits(nodes, path), movingId)
    decreases nodes
  {
    hide Select, TargetOf;
    if nodes == [] {
      assert Select([], movingId) == [] by { SelectInside([], movingId); }
    } else {
      var front, node := nodes[..|nodes| - 1], nodes[|nodes| - 1];
      var here := path + [node.id];
      var below := Visits(node.children, here);
      ListedIsSelected(front, path, movingId);
      SelectThree(Visits(front, path), Visit(node, here), below, movingId);
      assert Listed(nodes, |path|, movingId) == Listed(front, |path|, movingId) + ListedNode(node, |path|, movingId);
      if node.id == movingId {
        InsideOnPath(node.children, here);
        SelectInside(below, movingId);
      } else {
        ListedIsSelected(node.children, here, movingId);
      }
    }
  }

  /**
   * Every location is met in front of all that lies below it, and that in front of all its later siblings and what
   * lies below them.
   */
  lemma {:induction false} VisitsInPreorder(a: seq<Location>, node: Location, b: seq<Location>, path: seq<string>)
    ensures var here := path + [node.id];
            Visits(a + [node] + b, path)
            == Visits(a, path) + ([Visit(node, here)] + Visits(node.children, here)) + Visits(b, path)
    decreases |b|
  {
    if b == [] {
      LastVisits(a, node, path);
      assert a + [node] + b == a + [node];
    } else {
      var n := |b| - 1;
      var here := path + [node.id];
      var last := path + [b[n].id];
      VisitsInPreorder(a, node, b[..n], path);
      LastVisits(a + [node] + b[..n], b[n], path);
      LastVisits(b[..n], b[n], path);
      assert b == b[..n] + [b[n]] && a + [node] + b == a + [node] + b[..n] + [b[n]];
      hide Visits;
      Associate(Visits(a, path) + ([Visit(node, here)] + Visits(node.children, here)), Visits(b[..n], path),
                [Visit(b[n], last)] + Visits(b[n].children, last));
    }
  }

  lemma LastVisits(front: seq<Location>, node: Location, path: seq<string>)
    ensures var here := path + [node.id];
            Visits(front + [node], path) == Visits(front, path) + ([Visit(node, here)] + Visits(node.children, here))
  {
    assert (front + [node])[..|front|] == front;
  }

  lemma Associate(x: seq<Visit>, y: seq<Visit>, z: seq<Visit>)
    ensures x + y + z == x + (y + z)
  {
  }

  lemma InsideOnPath(nodes: seq<Location>, path: seq<string>)
    requires path != []
    ensures forall k | 0 <= k < |Visits(nodes, path)| :: path[|path| - 1] in Visits(nodes, path)[k].path
  {
    var vs := Visits(nodes, path);
    forall k | 0 <= k < |vs| ensures path[|path| - 1] in vs[k].path {
      assert vs[k].path[|path| - 1] == path[|path| - 1];
    }
  }

  lemma SelectThree(a: seq<Visit>, v: Visit, b: seq<Visit>, movingId: string)
    requires forall k | 0 <= k < |a| :: |a[k].path| > 0
    requires forall k | 0 <= k < |b| :: |b[k].path| > 0
    requires |v.path| > 0
    ensures Select(a + [v] + b, movingId)
            == Select(a, movingId)
               + (if Offered(v, movingId) then [TargetOf(v.node, |v.path| - 1)] else [])
               + Select(b, movingId)
  {
    SelectConcat(a + [v], b, movingId);
    assert (a + [v])[..|a|] == a;
  }

  // ---------- Parent links of the forest ----------

  /** Each id that is not a root with the id of its parent. */
  function Links(vs: seq<Visit>): map<string, string> {
    if vs == [] then map[] else
      var v := vs[|vs| - 1];
      var front := Links(vs[..|vs| - 1]);
      if |v.path| >= 2 then front[v.node.id := v.path[|v.path| - 2]] else front
  }

  ghost predicate UniqueIds(vs: seq<Visit>) {
    forall i, j | 0 <= i < j < |vs| :: vs[i].node.id != vs[j].node.id
  }

  /** Every visit but those of the outermost list has its parent among the visits. */
  ghost predicate HasParents(vs: seq<Visit>, depth: nat) {
    forall k | 0 <= k < |vs| && |vs[k].path| > depth + 1 ::
      exists u :: 0 <= u < |vs| && vs[u].path == vs[k].path[..|vs[k].path| - 1]
  }

  lemma {:induction false} ParentsAreVisited(nodes: seq<Location>, path: seq<string>)
    ensures HasParents(Visits(nodes, path), |path|)
    decreases nodes
  {
    if nodes != [] {
      var front, node := nodes[..|nodes| - 1], nodes[|nodes| - 1];
      var here := path + [node.id];
      ParentsAreVisited(front, path);
      ParentsAreVisited(node.children, here);
      JoinHasParents(Visits(front, path), Visit(node, here), Visits(node.children, here), |path|);
    }
  }

  ghost predicate ParentIsAt(vs: seq<Visit>, path: seq<string>, u: nat) {
    u < |vs| && path != [] && vs[u].path == path[..|path| - 1]
  }

  lemma JoinHasParents(a: seq<Visit>, v: Visit, b: seq<Visit>, depth: nat)
    requires HasParents(a, depth) && HasParents(b, depth + 1) && |v.path| == depth + 1
    requires forall k | 0 <= k < |b| :: v.path < b[k].path
    ensures HasParents(a + [v] + b, depth)
  {
    hide HasParents;
    var vs := a + [v] + b;
    forall k | 0 <= k < |vs| && |vs[k].path| > depth + 1 ensures exists u: nat :: ParentIsAt(vs, vs[k].path, u) {
      if k < |a| {
        var u := ParentOf(a, depth, k);
        assert ParentIsAt(vs, vs[k].path, u);
      } else {
        var n := k - |a| - 1;
        assert vs[k] == b[n];
        if |b[n].path| > depth + 2 {
          var u := ParentOf(b, depth + 1, n);
          assert ParentIsAt(vs, vs[k].path, |a| + 1 + u);
        } else {
          FirstPrefix(v.path, b[n].path);
          assert ParentIsAt(vs, vs[k].path, |a|);
        }
      }
    }
    AllHaveParents(vs, depth);
  }

  lemma ParentOf(vs: seq<Visit>, depth: nat, k: nat) returns (u: nat)
    requires HasParents(vs, depth) && k < |vs| && |vs[k].path| > depth + 1
    ensures ParentIsAt(vs, vs[k].path, u)
  {
    u :| 0 <= u < |vs| && vs[u].path == vs[k].path[..|vs[k].path| - 1];
  }

  lemma FirstPrefix(p: seq<string>, q: seq<string>)
    requires p < q && |q| <= |p| + 1
    ensures p == q[..|q| - 1]
  {
  }

  lemma AllHaveParents(vs: seq<Visit>, depth: nat)
    requires forall k | 0 <= k < |vs| && |vs[k].path| > depth + 1 :: exists u: nat :: ParentIsAt(vs, vs[k].path, u)
    ensures HasParents(vs, depth)
  {
    forall k | 0 <= k < |vs| && |vs[k].path| > depth + 1
      ensures exists u :: 0 <= u < |vs| && vs[u].path == vs[k].path[..|vs[k].path| - 1]
    {
      var u: nat :| ParentIsAt(vs, vs[k].path, u);
    }
  }

  lemma {:induction false} LinkOf(vs: seq<Visit>, k: nat)
    requires k < |vs| && UniqueIds(vs)
    ensures vs[k].node.id in Links(vs) <==> |vs[k].path| >= 2
    ensures |vs[k].path| >= 2 ==> Links(vs)[vs[k].node.id] == vs[k].path[|vs[k].path| - 2]
  {
    var n := |vs| - 1;
    if k < n { LinkOf(vs[..n], k); } else { LinkedIsVisited(vs[..n]); }
  }

  ghost predicate Visited(vs: seq<Visit>, id: string) { exists k :: 0 <= k < |vs| && vs[k].node.id == id }

  lemma {:induction false} LinkedIsVisited(vs: seq<Visit>)
    ensures forall id | id in Links(vs) :: Visited(vs, id)
  {
    if vs != [] {
      var n := |vs| - 1;
      LinkedIsVisited(vs[..n]);
      forall id | id in Links(vs) ensures Visited(vs, id) {
        if id != vs[n].node.id {
          assert id in Links(vs[..n]) && Visited(vs[..n], id);
          var k :| 0 <= k < |vs[..n]| && vs[..n][k].node.id == id;
          assert vs[k].node.id == id;
        }
      }
    }
  }

  /** A forest in which every location is met once, every parent before its children. */
  ghost predicate IsForest(vs: seq<Visit>) {
    UniqueIds(vs) && HasParents(vs, 0) && EndInOwnId(vs)
  }

  ghost predicate EndInOwnId(vs: seq<Visit>) {
    forall k | 0 <= k < |vs| :: |vs[k].path| > 0 && vs[k].path[|vs[k].path| - 1] == vs[k].node.id
  }

  /** Every front part of a path leads to a visit of its own. */
  lemma {:induction false} FrontIsVisited(vs: seq<Visit>, v: nat, n: nat) returns (u: nat)
    requires HasParents(vs, 0) && EndInOwnId(vs) && v < |vs| && 1 <= n <= |vs[v].path|
    ensures u < |vs| && vs[u].path == vs[v].path[..n] && vs[u].node.id == vs[v].path[n - 1]
    decreases |vs[v].path| - n
  {
    hide HasParents;
    if n == |vs[v].path| {
      u := v;
      assert vs[v].path[..n] == vs[v].path;
    } else {
      var w := FrontIsVisited(vs, v, n + 1);
      u := ParentOf(vs, 0, w);
      ShorterFront(vs[v].path, n);
    }
  }

  lemma ShorterFront(path: seq<string>, n: nat)
    requires 1 <= n < |path|
    ensures path[..n + 1][..n] == path[..n]
  {
  }

  /** On a path, every id but the first links to the one in front of it. */
  lemma {:induction false} LinksAlongPath(vs: seq<Visit>, v: nat, n: nat)
    requires IsForest(vs) && v < |vs| && 1 <= n <= |vs[v].path|
    ensures vs[v].path[n - 1] in Links(vs) <==> n >= 2
    ensures n >= 2 ==> Links(vs)[vs[v].path[n - 1]] == vs[v].path[n - 2]
  {
    hide Links, HasParents;
    var u := FrontIsVisited(vs, v, n);
    LinkOf(vs, u);
  }

  /** Following the links from a location goes up its path and ends at the root. */
  lemma {:induction false} UpFollowsPath(vs: seq<Visit>, v: nat, k: nat)
    requires IsForest(vs) && v < |vs|
    ensures var p := vs[v].path;
            Up(Links(vs), vs[v].node.id, k) == if k < |p| then Some(p[|p| - 1 - k]) else None
  {
    hide Links, HasParents, UniqueIds;
    var p := vs[v].path;
    if k > 0 {
      UpFollowsPath(vs, v, k - 1);
      if k - 1 < |p| { LinksAlongPath(vs, v, |p| - k + 1); }
    }
  }

  /** The links of a forest have no cycle. */
  lemma ForestIsAcyclic(vs: seq<Visit>)
    requires IsForest(vs)
    ensures Acyclic(Links(vs))
  {
    hide Links, HasParents, Up;
    LinkedIsVisited(vs);
    forall id | id in Links(vs) ensures !OnCycle(Links(vs), id) {
      var v :| 0 <= v < |vs| && vs[v].node.id == id;
      var p := vs[v].path;
      if OnCycle(Links(vs), id) {
        var k: nat :| k >= 1 && Up(Links(vs), id, k) == Some(id);
        UpFollowsPath(vs, v, k);
        var u := FrontIsVisited(vs, v, |p| - k);
      }
    }
  }

  /** The ancestors of a location are the ids above it on its path. */
  lemma {:induction false} AncestorsAreOnPath(vs: seq<Visit>, v: nat, a: string)
    requires IsForest(vs) && v < |vs|
    ensures a in vs[v].path <==> a == vs[v].node.id || IsAncestor(Links(vs), vs[v].node.id, a)
  {
    hide Links, HasParents, UniqueIds, Up;
    var p := vs[v].path;
    if a in p && a != vs[v].node.id {
      var i :| 0 <= i < |p| && p[i] == a;
      UpFollowsPath(vs, v, |p| - 1 - i);
      assert IsAncestor(Links(vs), vs[v].node.id, a);
    }
    if IsAncestor(Links(vs), vs[v].node.id, a) {
      var k: nat :| k >= 1 && Up(Links(vs), vs[v].node.id, k) == Some(a);
      UpFollowsPath(vs, v, k);
    }
  }

  /** The visits of a whole forest with unique ids. */
  lemma WholeForest(roots: seq<Location>)
    requires UniqueIds(Visits(roots, []))
    ensures IsForest(Visits(roots, []))
  {
    ParentsAreVisited(roots, []);
  }

  /**
   * An active location is offered exactly when moving under it leaves the parent links without a cycle.
   */
  lemma OfferedIffSafe(roots: seq<Location>, movingId: string, v: nat)
    requires UniqueIds(Visits(roots, [])) && v < |Visits(roots, [])| && Visits(roots, [])[v].node.isActive
    ensures var vs := Visits(roots, []);
            Offered(vs[v], movingId) <==> Acyclic(Links(vs)[movingId := vs[v].node.id])
  {
    var vs := Visits(roots, []);
    WholeForest(roots);
    ForestIsAcyclic(vs);
    AncestorsAreOnPath(vs, v, movingId);
    ReparentAcyclic(Links(vs), movingId, vs[v].node.id);
  }

  /** Every listed target is an offered visit, and every offered visit is listed. */
  lemma {:induction false} SelectedIffOffered(vs: seq<Visit>, movingId: string, t: Target)
    requires forall k | 0 <= k < |vs| :: |vs[k].path| > 0
    ensures t in Select(vs, movingId)
            <==> exists v :: 0 <= v < |vs| && Offered(vs[v], movingId) && t == TargetOf(vs[v].node, |vs[v].path| - 1)
  {
    if vs != [] {
      var n := |vs| - 1;
      SelectedIffOffered(vs[..n], movingId, t);
      if t in Select(vs[..n], movingId) {
        var v :| 0 <= v < n && Offered(vs[..n][v], movingId) && t == TargetOf(vs[..n][v].node, |vs[..n][v].path| - 1);
        assert vs[v] == vs[..n][v];
      }
      if v :| 0 <= v < |vs| && Offered(vs[v], movingId) && t == TargetOf(vs[v].node, |vs[v].path| - 1) {
        if v < n { assert vs[..n][v] == vs[v]; }
      }
    }
  }

  /**
   * Moving under a listed target never makes a cycle, and every active location that would be safe is listed
   * with its depth in the tree.
   */
  lemma ListedTargetsAreTheSafeOnes(roots: seq<Location>, movingId: string, t: Target)
    requires UniqueIds(Visits(roots, []))
    ensures var vs := Visits(roots, []);
            t in Listed(roots, 0, movingId)
            <==> exists v :: 0 <= v < |vs| && vs[v].node.isActive && Acyclic(Links(vs)[movingId := vs[v].node.id])
                             && t.id == vs[v].node.id && t.depth == |vs[v].path| - 1
                             && t.caption == vs[v].node.name + " (" + vs[v].node.code + ")"
  {
    var vs := Visits(roots, []);
    ListedIsSelected(roots, [], movingId);
    SelectedIffOffered(vs, movingId, t);
    forall v | 0 <= v < |vs| && vs[v].node.isActive
      ensures Offered(vs[v], movingId) <==> Acyclic(Links(vs)[movingId := vs[v].node.id])
    {
      OfferedIffSafe(roots, movingId, v);
    }
  }
}
