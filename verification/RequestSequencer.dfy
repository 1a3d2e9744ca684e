/** Request numbers for lists that poll: a slow, older answer must not overwrite a newer one. */
module RequestSequencer {
  import opened Options

  datatype Action = NewRequest | CancelAll

  /** The latest number, all numbers handed out, and the one whose answer may still be used, if there is one. */
  datatype Numbers = Numbers(latest: nat, ids: seq<nat>, open: Option<nat>)

  function Step(s: Numbers, a: Action): Numbers {
    match a
    case NewRequest => Numbers(s.latest + 1, s.ids + [s.latest + 1], Some(s.latest + 1))
    case CancelAll => Numbers(s.latest + 1, s.ids, None)
  }

  function RunAll(actions: seq<Action>): Numbers {
    if actions == [] then Numbers(0, [], None) else Step(RunAll(actions[..|actions| - 1]), actions[|actions| - 1])
  }

  /** Numbers grow, and only the open request carries the latest. */
  ghost predicate Inv(s: Numbers) {
    && (forall i, j | 0 <= i < j < |s.ids| :: s.ids[i] < s.ids[j])
    && (forall i | 0 <= i < |s.ids| :: s.ids[i] <= s.latest)
    && (s.open.Some? ==> s.ids != [] && s.ids[|s.ids| - 1] == s.open.value == s.latest)
    && (s.open.None? ==> s.latest !in s.ids)
  }

  lemma {:induction false} InvHolds(actions: seq<Action>)
    ensures Inv(RunAll(actions))
  {
    if actions != [] { InvHolds(actions[..|actions| - 1]); }
  }

  lemma {:induction false} LatestGrows(actions: seq<Action>, more: seq<Action>)
    ensures RunAll(actions + more).latest == RunAll(actions).latest + |more|
  {
    if more == [] {
      assert actions + more == actions;
    } else {
      LatestGrows(actions, more[..|more| - 1]);
      assert (actions + more)[..|actions + more| - 1] == actions + more[..|more| - 1];
    }
  }

  /**
   * Over every sequence of requests and cancellations: the answer to a request is used exactly as long as nothing was
   * begun or cancelled after it. So an answer is never used after a newer one.
   */
  lemma UsedUntilNextAction(before: seq<Action>, more: seq<Action>)
    ensures var s, t := RunAll(before + [NewRequest]), RunAll(before + [NewRequest] + more);
            s.latest in t.ids && (s.latest == t.latest <==> more == []) && (t.open == Some(s.latest) <==> more == [])
  {
    var begun := before + [NewRequest];
    assert begun[..|before|] == before;
    InvHolds(begun + more);
    LatestGrows(begun, more);
    NumbersStay(begun, more);
    assert begun + [] == begun;
    assert RunAll(begun).ids[|RunAll(begun).ids| - 1] == RunAll(begun).latest;
  }

  lemma {:induction false} NumbersStay(actions: seq<Action>, more: seq<Action>)
    ensures RunAll(actions).ids <= RunAll(actions + more).ids
  {
    if more == [] {
      assert actions + more == actions;
    } else {
      NumbersStay(actions, more[..|more| - 1]);
      assert (actions + more)[..|actions + more| - 1] == actions + more[..|more| - 1];
    }
  }

  /** The next request gets a number that no request had before. */
  lemma NextNumber(actions: seq<Action>)
    ensures var s, t := RunAll(actions), RunAll(actions + [NewRequest]);
            t.latest == s.latest + 1 && t.open == Some(t.latest) && t.latest !in s.ids
  {
    InvHolds(actions);
    assert (actions + [NewRequest])[..|actions|] == actions;
  }

  class AbortController {
    var aborted: bool

    constructor ()
      ensures !aborted
    {
      aborted := false;
    }

    method Abort()
      modifies this
      ensures aborted
    {
      aborted := true;
    }
  }

  /** `createRequestSequencer`. The history keeps every action and every controller handed out. */
  class Sequencer {
    var latest: nat
    var controller: AbortController?
    const supported: bool
    ghost var actions: seq<Action>
    ghost var issued: seq<AbortController>

    /** The number is that of the actions, and every controller but the current one is aborted. */
    ghost predicate Valid()
      reads this, issued
    {
      && latest == RunAll(actions).latest
      && (forall i, j | 0 <= i < j < |issued| :: issued[i] != issued[j])
      && (forall i | 0 <= i < |issued| :: !issued[i].aborted <==> issued[i] == controller)
      && (controller != null ==> RunAll(actions).open.Some? && issued != [] && issued[|issued| - 1] == controller)
    }

    constructor (supported: bool)
      ensures Valid() && this.supported == supported && actions == [] && issued == [] && latest == 0
    {
      this.supported := supported;
      latest, controller := 0, null;
      actions, issued := [], [];
    }

    /** A new request: the one before is aborted and from now on only this one counts. */
    method Begin() returns (id: nat, signal: AbortController?)
      requires Valid()
      modifies this, controller
      ensures Valid() && actions == old(actions) + [NewRequest]
      ensures id == latest && RunAll(actions).open == Some(id) && id !in RunAll(old(actions)).ids
      ensures supported <==> signal != null
      ensures signal != null ==>
                fresh(signal) && !signal.aborted && issued == old(issued) + [signal] && controller == signal
      ensures signal == null ==> issued == old(issued) && controller == null
      ensures forall c | c in old(issued) :: c.aborted
    {
      hide RunAll;
      NextNumber(actions);
      if controller != null {
        controller.Abort();
      }
      if supported {
        var next := new AbortController();
        controller := next;
        issued := issued + [next];
      } else {
        controller := null;
      }
      latest := latest + 1;
      actions := actions + [NewRequest];
      return latest, controller;
    }

    /** An answer counts exactly when its request is the open one. */
    method IsLatest(id: nat) returns (accepted: bool)
      requires Valid()
      ensures accepted <==> id == RunAll(actions).latest
      ensures id in RunAll(actions).ids ==> (accepted <==> RunAll(actions).open == Some(id))
    {
      InvHolds(actions);
      accepted := id == latest;
    }

    /** Nothing that was begun counts any more. */
    method Cancel()
      requires Valid()
      modifies this, controller
      ensures Valid() && actions == old(actions) + [CancelAll] && issued == old(issued)
      ensures RunAll(actions).open == None && controller == null && forall c | c in issued :: c.aborted
    {
      if controller != null {
        controller.Abort();
      }
      controller := null;
      latest := latest + 1;
      assert (actions + [CancelAll])[..|actions|] == actions;
      actions := actions + [CancelAll];
    }
  }
}
