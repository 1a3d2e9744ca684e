/**
 * Refreshes that concurrent callers share: one latch per session on the server, and one latch for the whole
 * browser. Both are modelled by the same machine, whose steps are calls, the end of a run, the clean-up
 * behind it, and the resets that tests perform.
 */
module SingleFlight {
  import opened Options

  /** `Finishing`: the runner is done but the clean-up of the latch has not run, so nobody sees the outcome. */
  datatype Progress<T> = Running | Finishing(result: T) | Done(outcome: T)

  datatype Run<T> = Run(key: string, progress: Progress<T>)

  /** A caller and the run whose outcome it was promised. */
  datatype Caller = Caller(token: string, run: nat)

  datatype Latch<T> = Latch(inFlight: map<string, nat>, runs: seq<Run<T>>, callers: seq<Caller>)

  datatype Event<T> = Call(token: string) | Finish(run: nat, result: T) | CleanUp(run: nat) | Reset

  const NO_LATCH := map[]

  function Start<T>(): Latch<T> { Latch(NO_LATCH, [], []) }

  function Step<T>(key: string -> string, s: Latch<T>, e: Event<T>): Latch<T> {
    match e
    case Call(token) =>
      var k := key(token);
      if k in s.inFlight then s.(callers := s.callers + [Caller(token, s.inFlight[k])])
      else Latch(s.inFlight[k := |s.runs|], s.runs + [Run(k, Running)], s.callers + [Caller(token, |s.runs|)])
    case Finish(r, result) =>
      if r < |s.runs| && s.runs[r].progress == Running
      then s.(runs := s.runs[r := s.runs[r].(progress := Finishing(result))]) else s
    case CleanUp(r) =>
      if r < |s.runs| && s.runs[r].progress.Finishing? then
        var run := s.runs[r];
        Latch(if run.key in s.inFlight && s.inFlight[run.key] == r then s.inFlight - {run.key} else s.inFlight,
              s.runs[r := run.(progress := Done(run.progress.result))],
              s.callers)
      else s
    case Reset => s.(inFlight := NO_LATCH)
  }

  function RunAll<T>(key: string -> string, es: seq<Event<T>>): Latch<T> {
    if es == [] then Start() else Step(key, RunAll(key, es[..|es| - 1]), es[|es| - 1])
  }

  predicate InFlight<T>(s: Latch<T>, r: nat) { r < |s.runs| && !s.runs[r].progress.Done? }

  /** Latches point to runs of their own key whose clean-up is still to come; callers hold runs of their key. */
  ghost predicate Inv<T>(key: string -> string, s: Latch<T>) {
    && (forall k | k in s.inFlight :: InFlight(s, s.inFlight[k]) && s.runs[s.inFlight[k]].key == k)
    && (forall c | 0 <= c < |s.callers| ::
          s.callers[c].run < |s.runs| && s.runs[s.callers[c].run].key == key(s.callers[c].token))
  }

  lemma StepKeepsInv<T>(key: string -> string, s: Latch<T>, e: Event<T>)
    requires Inv(key, s)
    ensures Inv(key, Step(key, s, e))
  {
  }

  /**
   * Over every interleaving, resets included: a latch always points to a run of its key that is still in
   * flight, so it is clear before the outcome is visible, and every caller holds a run of its own key.
   */
  lemma {:induction false} InvHolds<T>(key: string -> string, es: seq<Event<T>>)
    ensures Inv(key, RunAll(key, es))
  {
    if es != [] {
      InvHolds(key, es[..|es| - 1]);
      StepKeepsInv(key, RunAll(key, es[..|es| - 1]), es[|es| - 1]);
    }
  }

  /** Whoever calls is promised a run of its own key that is in flight at the time of the call. */
  lemma CallJoinsRunInFlight<T>(key: string -> string, es: seq<Event<T>>, token: string)
    ensures var s := RunAll(key, es + [Call(token)]);
            && |s.callers| == |RunAll(key, es).callers| + 1
            && var c := s.callers[|s.callers| - 1];
               c.token == token && InFlight(s, c.run) && s.runs[c.run].key == key(token)
  {
    InvHolds(key, es);
    assert (es + [Call(token)])[..|es|] == es;
  }

  ghost predicate Extends<T>(s: Latch<T>, t: Latch<T>) {
    && |s.runs| <= |t.runs| && s.callers <= t.callers
    && forall r | 0 <= r < |s.runs| ::
         && t.runs[r].key == s.runs[r].key
         && (s.runs[r].progress.Done? ==> t.runs[r] == s.runs[r])
         && (s.runs[r].progress.Finishing? ==>
               t.runs[r].progress in {s.runs[r].progress, Done(s.runs[r].progress.result)})
  }

  /**
   * Whatever happens later, a promise stays a promise of the same run, what a run has ended with becomes visible as
   * its outcome, and a visible outcome never changes.
   */
  lemma {:induction false} LaterExtends<T>(key: string -> string, es: seq<Event<T>>, more: seq<Event<T>>)
    ensures Extends(RunAll(key, es), RunAll(key, es + more))
  {
    if more == [] {
      assert es + more == es;
    } else {
      LaterExtends(key, es, more[..|more| - 1]);
      assert (es + more)[..|es + more| - 1] == es + more[..|more| - 1];
    }
  }

  /** Callers with different tokens never share a run, when different tokens have different keys. */
  lemma SharersHaveOneToken<T>(key: string -> string, es: seq<Event<T>>, c: nat, d: nat)
    requires forall x, y | key(x) == key(y) :: x == y
    requires c < |RunAll(key, es).callers| && d < |RunAll(key, es).callers|
    requires RunAll(key, es).callers[c].run == RunAll(key, es).callers[d].run
    ensures RunAll(key, es).callers[c].token == RunAll(key, es).callers[d].token
  {
    InvHolds(key, es);
  }

  /** Cleaning up behind a run never removes the latch of another run. */
  lemma CleanUpSparesOthers<T>(key: string -> string, es: seq<Event<T>>, r: nat, k: string)
    requires var s := RunAll(key, es); k in s.inFlight && s.inFlight[k] != r
    ensures var s, t := RunAll(key, es), RunAll(key, es + [CleanUp(r)]);
            k in t.inFlight && t.inFlight[k] == s.inFlight[k]
  {
    assert (es + [CleanUp(r)])[..|es|] == es;
  }

  /** Every run in flight is the one its latch points to. */
  ghost predicate Latched<T>(s: Latch<T>) {
    forall r | 0 <= r < |s.runs| && InFlight(s, r) :: s.runs[r].key in s.inFlight && s.inFlight[s.runs[r].key] == r
  }

  lemma StepKeepsLatched<T>(key: string -> string, s: Latch<T>, e: Event<T>)
    requires Inv(key, s) && Latched(s) && e != Reset
    ensures Latched(Step(key, s, e))
  {
  }

  lemma {:induction false} LatchedWithoutReset<T>(key: string -> string, es: seq<Event<T>>)
    requires Reset !in es
    ensures Latched(RunAll(key, es))
  {
    if es != [] {
      InvHolds(key, es[..|es| - 1]);
      LatchedWithoutReset(key, es[..|es| - 1]);
      StepKeepsLatched(key, RunAll(key, es[..|es| - 1]), es[|es| - 1]);
    }
  }

  /** Without a reset, at most one run per key is in flight. */
  lemma AtMostOneRunPerKey<T>(key: string -> string, es: seq<Event<T>>, q: nat, r: nat)
    requires Reset !in es
    requires InFlight(RunAll(key, es), q) && InFlight(RunAll(key, es), r)
    requires RunAll(key, es).runs[q].key == RunAll(key, es).runs[r].key
    ensures q == r
  {
    LatchedWithoutReset(key, es);
  }

  /** A reset between two calls does put two runs of one key in flight, so the restriction is needed. */
  lemma ResetAllowsTwoRuns<T>(key: string -> string, token: string)
    ensures var s := RunAll<T>(key, [Call(token), Reset, Call(token)]);
            InFlight(s, 0) && InFlight(s, 1) && s.runs[0].key == s.runs[1].key
  {
    var es: seq<Event<T>> := [Call(token), Reset, Call(token)];
    assert es[..2] == [Call(token), Reset] && es[..2][..1] == [Call(token)] && es[..2][..1][..0] == [];
    assert RunAll(key, es[..2][..1]) == Step(key, Start<T>(), Call(token));
    assert RunAll(key, es[..2]) == Step(key, RunAll(key, es[..2][..1]), Reset);
  }

  // ---------- The two latches of the program ----------

  /** The server's latches, one per refresh token; `hash` is the digest that keys them. */
  class SilentRefreshLatches<T(==)> {
    const hash: string -> string
    var refreshInFlight: map<string, nat>
    var runs: seq<Run<T>>
    var callers: seq<Caller>

    ghost function State(): Latch<T>
      reads this
    {
      Latch(refreshInFlight, runs, callers)
    }

    constructor (hash: string -> string)
      ensures this.hash == hash && State() == Start()
    {
      this.hash := hash;
      refreshInFlight, runs, callers := map[], [], [];
    }

    /** `runExclusiveSilentRefresh` up to its return: the number of the run whose outcome is promised. */
    method RunExclusive(refreshToken: string) returns (pending: nat)
      modifies this
      ensures State() == Step(hash, old(State()), Call(refreshToken))
      ensures callers == old(callers) + [Caller(refreshToken, pending)]
    {
      var key := hash(refreshToken);
      if key in refreshInFlight {
        pending := refreshInFlight[key];
      } else {
        pending := |runs|;
        runs := runs + [Run(key, Running)];
        refreshInFlight := refreshInFlight[key := pending];
      }
      callers := callers + [Caller(refreshToken, pending)];
    }

    /** The runner settles; its clean-up is queued behind it. */
    method Settle(pending: nat, result: T)
      requires pending < |runs| && runs[pending].progress == Running
      modifies `runs
      ensures State() == Step(hash, old(State()), Finish(pending, result))
    {
      runs := runs[pending := runs[pending].(progress := Finishing(result))];
    }

    /** The clean-up: removes the latch only if it still is this run's. */
    method Finally(pending: nat)
      requires pending < |runs| && runs[pending].progress.Finishing?
      modifies `runs, `refreshInFlight
      ensures State() == Step(hash, old(State()), CleanUp(pending))
    {
      var run := runs[pending];
      if run.key in refreshInFlight && refreshInFlight[run.key] == pending {
        refreshInFlight := refreshInFlight - {run.key};
      }
      runs := runs[pending := run.(progress := Done(run.progress.result))];
    }

    method ResetForTests()
      modifies `refreshInFlight
      ensures State() == Step(hash, old(State()), Reset)
    {
      refreshInFlight := map[];
    }
  }

  /** The browser's only latch. Its machine has a single key. */
  class AccessTokenRefresh {
    var refreshInFlight: Option<nat>
    var runs: seq<Run<bool>>
    var callers: seq<Caller>

    ghost function State(): Latch<bool>
      reads this
    {
      Latch(if refreshInFlight.Some? then map["" := refreshInFlight.value] else map[], runs, callers)
    }

    /** Every run was started under the single key. */
    ghost predicate Valid()
      reads this
    {
      forall r | 0 <= r < |runs| :: runs[r].key == ""
    }

    constructor ()
      ensures Valid() && State() == Start()
    {
      refreshInFlight, runs, callers := None, [], [];
    }

    /** `shareAccessTokenRefresh` up to its return. */
    method Share() returns (pending: nat)
      requires Valid()
      modifies this
      ensures Valid() && State() == Step(SingleKey, old(State()), Call(""))
      ensures callers == old(callers) + [Caller("", pending)]
    {
      if refreshInFlight.Some? {
        pending := refreshInFlight.value;
      } else {
        pending := |runs|;
        runs := runs + [Run("", Running)];
        refreshInFlight := Some(pending);
      }
      callers := callers + [Caller("", pending)];
    }

    method Settle(pending: nat, result: bool)
      requires Valid() && pending < |runs| && runs[pending].progress == Running
      modifies `runs
      ensures Valid() && State() == Step(SingleKey, old(State()), Finish(pending, result))
    {
      runs := runs[pending := runs[pending].(progress := Finishing(result))];
    }

    method Finally(pending: nat)
      requires Valid() && pending < |runs| && runs[pending].progress.Finishing?
      modifies `runs, `refreshInFlight
      ensures Valid() && State() == Step(SingleKey, old(State()), CleanUp(pending))
    {
      if refreshInFlight == Some(pending) {
        refreshInFlight := None;
      }
      runs := runs[pending := runs[pending].(progress := Done(runs[pending].progress.result))];
      assert map["" := pending] - {""} == map[];
    }

    method ResetForTests()
      requires Valid()
      modifies `refreshInFlight
      ensures Valid() && State() == Step(SingleKey, old(State()), Reset)
    {
      refreshInFlight := None;
    }
  }

  function SingleKey(token: string): string { "" }
}
