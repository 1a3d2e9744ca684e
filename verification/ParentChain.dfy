/** Chains of parents in a map from children to parents, which may run into a cycle. */
module ParentChain {
  import opened Options

  /** The k-th parent above `x`, if the chain is that long. */
  function Up<T(==)>(parent: map<T, T>, x: T, k: nat): Option<T> {
    if k == 0 then Some(x) else
      match Up(parent, x, k - 1)
      case None => None
      case Some(y) => if y in parent then Some(parent[y]) else None
  }

  /** `a` is reached from `x` over one or more parent links. */
  ghost predicate IsAncestor<T>(parent: map<T, T>, x: T, a: T) {
    exists k: nat :: k >= 1 && Up(parent, x, k) == Some(a)
  }

  ghost predicate OnCycle<T>(parent: map<T, T>, x: T) { IsAncestor(parent, x, x) }

  ghost predicate Acyclic<T>(parent: map<T, T>) { forall x | x in parent :: !OnCycle(parent, x) }

  /** Everything reached over one or more links. */
  ghost function Ancestors<T>(parent: map<T, T>, x: T): set<T> {
    set a | a in parent.Values && IsAncestor(parent, x, a)
  }

  lemma {:induction false} UpShift<T>(parent: map<T, T>, x: T, k: nat)
    ensures Up(parent, x, k + 1) == if x in parent then Up(parent, parent[x], k) else None
  {
    if k > 0 { UpShift(parent, x, k - 1); }
  }

  lemma AncestorIsParent<T>(parent: map<T, T>, x: T, a: T)
    requires IsAncestor(parent, x, a)
    ensures a in parent.Values && a in Ancestors(parent, x)
  {
    var k: nat :| k >= 1 && Up(parent, x, k) == Some(a);
    var y := Up(parent, x, k - 1).value;
    assert parent[y] == a;
  }

  /** One step of the chain: the ancestors are the parent and the parent's ancestors. */
  lemma AncestorStep<T>(parent: map<T, T>, x: T, a: T)
    ensures IsAncestor(parent, x, a) <==> x in parent && (a == parent[x] || IsAncestor(parent, parent[x], a))
  {
    if IsAncestor(parent, x, a) {
      var k: nat :| k >= 1 && Up(parent, x, k) == Some(a);
      UpShift(parent, x, k - 1);
    }
    if x in parent {
      assert Up(parent, x, 0) == Some(x);
      assert Up(parent, x, 1) == Some(parent[x]);
      if IsAncestor(parent, parent[x], a) {
        var k: nat :| k >= 1 && Up(parent, parent[x], k) == Some(a);
        UpShift(parent, x, k);
      }
    }
  }

  lemma AncestorsStep<T>(parent: map<T, T>, x: T)
    ensures Ancestors(parent, x) == if x in parent then {parent[x]} + Ancestors(parent, parent[x]) else {}
  {
    forall a ensures a in Ancestors(parent, x)
                     <==> x in parent && (a == parent[x] || a in Ancestors(parent, parent[x]))
    {
      AncestorStep(parent, x, a);
    }
  }

  lemma {:induction false} UpTwice<T>(parent: map<T, T>, x: T, k: nat, y: T, n: nat)
    requires Up(parent, x, k) == Some(y)
    ensures Up(parent, x, k + n) == Up(parent, y, n)
  {
    if n > 0 { UpTwice(parent, x, k, y, n - 1); }
  }

  /** A set that contains the parent of `x` and is closed under parents contains every ancestor of `x`. */
  lemma {:induction false} ClosedSetHoldsAncestors<T>(parent: map<T, T>, x: T, closed: set<T>, k: nat)
    requires x in parent ==> parent[x] in closed
    requires forall y | y in closed && y in parent :: parent[y] in closed
    requires k >= 1
    ensures Up(parent, x, k).Some? ==> Up(parent, x, k).value in closed
  {
    if k == 1 {
      assert Up(parent, x, 0) == Some(x);
    } else {
      ClosedSetHoldsAncestors(parent, x, closed, k - 1);
    }
  }

  /** The number of links walked upwards before the chain ends or meets a row already seen. */
  function Depth<T(==)>(parent: map<T, T>, x: T, seen: set<T>): nat
    decreases parent.Values - seen
  {
    if x !in parent || parent[x] in seen then 0
    else 1 + Depth(parent, parent[x], seen + {parent[x]})
  }

  /** The rows seen on the way to `x`: each but the last has its parent among them. */
  ghost predicate SeenOnTheWay<T>(parent: map<T, T>, x: T, seen: set<T>) {
    forall y | y in seen && y in parent :: y == x || parent[y] in seen
  }

  /** On the way, the walk still counts exactly the ancestors that were not seen. */
  lemma {:induction false} DepthCountsUnseen<T>(parent: map<T, T>, x: T, seen: set<T>)
    requires SeenOnTheWay(parent, x, seen)
    ensures Depth(parent, x, seen) == |Ancestors(parent, x) - seen|
    decreases parent.Values - seen
  {
    AncestorsStep(parent, x);
    if x in parent && parent[x] !in seen {
      var p := parent[x];
      DepthCountsUnseen(parent, p, seen + {p});
      assert Ancestors(parent, x) - seen == {p} + (Ancestors(parent, p) - (seen + {p}));
    } else if x in parent {
      forall a | a in Ancestors(parent, x) ensures a in seen {
        var k: nat :| k >= 1 && Up(parent, x, k) == Some(a);
        ClosedSetHoldsAncestors(parent, x, seen, k);
      }
      assert Ancestors(parent, x) - seen == {};
    } else {
      assert Ancestors(parent, x) - seen == {};
    }
  }

  /** The depth of a row is the number of distinct rows reached over its parent links, cycles or not. */
  lemma DepthCountsAncestors<T>(parent: map<T, T>, x: T)
    ensures Depth(parent, x, {}) == |Ancestors(parent, x)|
  {
    DepthCountsUnseen(parent, x, {});
    assert Ancestors(parent, x) - {} == Ancestors(parent, x);
  }

  /** A child lies one deeper than its parent, exactly when the parent is not on a cycle; else equally deep. */
  lemma ChildDepth<T>(parent: map<T, T>, x: T)
    requires x in parent
    ensures Depth(parent, x, {}) == Depth(parent, parent[x], {}) + (if OnCycle(parent, parent[x]) then 0 else 1)
  {
    var p := parent[x];
    DepthCountsAncestors(parent, x);
    DepthCountsAncestors(parent, p);
    AncestorsStep(parent, x);
    if OnCycle(parent, p) {
      AncestorIsParent(parent, p, p);
      assert Ancestors(parent, x) == Ancestors(parent, p);
    } else {
      assert p !in Ancestors(parent, p);
    }
  }

  // ---------- Giving an element another parent ----------

  /** As long as the chain has not met `m`, its new parent makes no difference. */
  lemma {:induction false} UpBeforeMeeting<T>(parent: map<T, T>, m: T, t: T, x: T, k: nat)
    requires forall j: nat | j < k :: Up(parent, x, j) != Some(m)
    ensures Up(parent[m := t], x, k) == Up(parent, x, k)
  {
    if k > 0 { UpBeforeMeeting(parent, m, t, x, k - 1); }
  }

  /** The least number of links from `x` to `a`. */
  lemma {:induction false} FirstMeeting<T>(parent: map<T, T>, x: T, a: T, k: nat) returns (n: nat)
    requires Up(parent, x, k) == Some(a)
    ensures n <= k && Up(parent, x, n) == Some(a) && forall j: nat | j < n :: Up(parent, x, j) != Some(a)
  {
    if j: nat :| j < k && Up(parent, x, j) == Some(a) {
      n := FirstMeeting(parent, x, a, j);
    } else {
      n := k;
    }
  }

  /** Without cycles before, a new parent makes a cycle exactly when it is the element itself or lies below it. */
  lemma ReparentAcyclic<T>(parent: map<T, T>, m: T, t: T)
    requires Acyclic(parent)
    ensures Acyclic(parent[m := t]) <==> t != m && !IsAncestor(parent, t, m)
  {
    var changed := parent[m := t];
    if t == m || IsAncestor(parent, t, m) {
      BelowMakesCycle(parent, m, t);
    } else if x :| x in changed && OnCycle(changed, x) {
      CycleComesFromBelow(parent, m, t, x);
    }
  }

  lemma BelowMakesCycle<T>(parent: map<T, T>, m: T, t: T)
    requires t == m || IsAncestor(parent, t, m)
    ensures OnCycle(parent[m := t], m)
  {
    var changed := parent[m := t];
    assert Up(parent, t, 0) == Some(t);
    var k: nat :| Up(parent, t, k) == Some(m);
    var n := FirstMeeting(parent, t, m, k);
    UpBeforeMeeting(parent, m, t, t, n);
    UpShift(changed, m, n);
    assert Up(changed, m, n + 1) == Some(m);
  }

  lemma CycleComesFromBelow<T>(parent: map<T, T>, m: T, t: T, x: T)
    requires Acyclic(parent) && OnCycle(parent[m := t], x)
    ensures t == m || IsAncestor(parent, t, m)
  {
    var changed := parent[m := t];
    var k: nat :| k >= 1 && Up(changed, x, k) == Some(x);
    if j: nat :| j < k && Up(changed, x, j) == Some(m) {
      UpTwice(changed, x, j, m, k - j);
      UpTwice(changed, m, k - j, x, j);
      UpShift(changed, m, k - 1);
      var n := FirstMeeting(changed, t, m, k - 1);
      UpBack(parent, changed, m, t, n);
      if n > 0 { assert IsAncestor(parent, t, m); }
    } else {
      UpBack(parent, changed, m, x, k);
      UpShift(parent, x, k - 1);
      assert OnCycle(parent, x);
    }
  }

  lemma {:induction false} UpBack<T>(parent: map<T, T>, changed: map<T, T>, m: T, x: T, k: nat)
    requires m in changed && changed == parent[m := changed[m]]
    requires forall j: nat | j < k :: Up(changed, x, j) != Some(m)
    ensures Up(parent, x, k) == Up(changed, x, k)
  {
    if k > 0 { UpBack(parent, changed, m, x, k - 1); }
  }

  // ---------- Cycles ----------

  /** On a cycle every element is reached, with as many links as one likes. */
  lemma {:induction false} CycleGoesOn<T>(parent: map<T, T>, x: T, length: nat, k: nat, least: nat) returns (n: nat)
    requires length >= 1 && Up(parent, x, length) == Some(x)
    ensures n >= least && Up(parent, x, n) == Up(parent, x, k)
    decreases least - k
  {
    if k >= least {
      n := k;
    } else {
      UpTwice(parent, x, length, x, k);
      n := CycleGoesOn(parent, x, length, length + k, least);
    }
  }

  /** Every element of a cycle reaches every other. */
  lemma CycleReaches<T>(parent: map<T, T>, x: T, y: T, z: T)
    requires OnCycle(parent, x) && IsAncestor(parent, x, y) && IsAncestor(parent, x, z)
    ensures IsAncestor(parent, y, z)
  {
    var length: nat :| length >= 1 && Up(parent, x, length) == Some(x);
    var a: nat :| a >= 1 && Up(parent, x, a) == Some(y);
    var b: nat :| b >= 1 && Up(parent, x, b) == Some(z);
    var n := CycleGoesOn(parent, x, length, b, a + 1);
    UpTwice(parent, x, a, y, n - a);
  }

  /** A map that agrees on a cycle has the whole cycle. */
  lemma {:induction false} CycleStays<T>(parent: map<T, T>, other: map<T, T>, x: T, y: T, k: nat)
    requires OnCycle(parent, x) && IsAncestor(parent, x, y)
    requires forall z | z in parent && IsAncestor(parent, x, z) :: z in other && other[z] == parent[z]
    ensures Up(other, y, k).Some? && IsAncestor(parent, x, Up(other, y, k).value)
  {
    if k > 0 {
      CycleStays(parent, other, x, y, k - 1);
      var z := Up(other, y, k - 1).value;
      NextOnCycle(parent, x, z);
    }
  }

  lemma NextOnCycle<T>(parent: map<T, T>, x: T, z: T)
    requires OnCycle(parent, x) && IsAncestor(parent, x, z)
    ensures z in parent && IsAncestor(parent, x, parent[z])
  {
    CycleReaches(parent, x, z, x);
    AncestorStep(parent, z, x);
    var k: nat :| k >= 1 && Up(parent, x, k) == Some(z);
    assert Up(parent, x, k + 1) == Some(parent[z]);
  }
}
