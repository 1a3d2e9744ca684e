/**
 * The refreshes of one token that are at the API at the same time. The server starts them behind its own latch, and
 * it also forwards those of the browser, past that latch.
 */
module TokenRotation {
  import opened Options
  import opened Text
  import opened UpstreamFetch
  import opened BffProxy
  import opened SessionProtocol
  import opened SessionCounts
  import SF = SingleFlight

  predicate IsRefresh(request: Request) { request.path == "auth/refresh" }

  /** The server has forwarded the refresh with this token and the API has not answered. */
  predicate AtApi(t: Task, token: string) { IsRefresh(t.request) && t.phase.Attempting? && t.refreshToken == token }

  function Forwarded(s: State, token: string): set<nat> {
    set k | 0 <= k < |s.tasks| && AtApi(s.tasks[k], token)
  }

  /** The server's own refreshes of this token whose request has not ended. */
  function Silent(s: State, token: string): set<nat> {
    set r | 0 <= r < |s.silent.runs| && s.silent.runs[r] == SF.Run(token, SF.Running)
  }

  /** How many refreshes of this token are at the API. */
  function Refreshes(s: State, token: string): nat { |Silent(s, token)| + |Forwarded(s, token)| }

  /** The request was sent by a run of the browser's shared refresh. */
  ghost predicate IsRefresher(s: State, k: nat) { Some(k) in s.refresher }

  /** The browser has given the request up before its answer came. */
  predicate GivenUp(t: Task) { t.browser == Finished(None) }

  // ---------- What holds in every run ----------

  /** While the request of a shared refresh is unfinished its run goes on; whoever got a status got an answer. */
  ghost predicate RefresherInv(s: State) {
    && |s.refresher| == |s.access.runs|
    && (forall r | 0 <= r < |s.refresher| && s.refresher[r].Some? ::
          s.refresher[r].value < |s.tasks|
          && (!s.tasks[s.refresher[r].value].browser.Finished? ==> s.access.runs[r].progress.Running?))
    && (forall k | 0 <= k < |s.tasks| :: AnsweredBefore(s.tasks[k]))
  }

  predicate AnsweredBefore(t: Task) { t.browser.Finished? && t.browser.status.Some? ==> t.phase.Answered? }

  lemma {:induction false} NextKeepsRefresherInv(s: State, e: Step)
    requires Inv(s) && RefresherInv(s)
    ensures RefresherInv(Next(s, e))
  {
    hide SF.Inv, SF.Latched, CanHappen, AfterServer, AfterDeliver, AttemptInv, ChangeInv, RefreshResult;
    match e
    case Open(request) =>
    case Dispatch(k, token) =>
    case Server(k, event, applied) =>
      if k < |s.tasks| && CanHappen(s, s.tasks[k], event, applied) { ServerKeepsRefresher(s, k, event, applied); }
    case Deliver(k, passwordChange, hasCsrfCookie) =>
      if k < |s.tasks| && s.tasks[k].browser == Waiting && s.tasks[k].phase.Answered? {
        DeliverKeepsRefresher(s, k, passwordChange, hasCsrfCookie);
      }
    case AccessFinish(r, rotated) =>
    case AccessCleanUp(r) =>
    case Resume(k, token) =>
    case _ =>
  }

  lemma ServerKeepsRefresher(s: State, k: nat, e: Event, applied: bool)
    requires RefresherInv(s) && k < |s.tasks| && CanHappen(s, s.tasks[k], e, applied)
    ensures RefresherInv(AfterServer(s, k, e, applied))
  {
    hide BffProxy.Step, SF.Step;
  }

  lemma DeliverKeepsRefresher(s: State, k: nat, passwordChange: bool, hasCsrfCookie: bool)
    requires RefresherInv(s) && k < |s.tasks| && s.tasks[k].browser == Waiting && s.tasks[k].phase.Answered?
    ensures RefresherInv(AfterDeliver(s, k, passwordChange, hasCsrfCookie))
  {
    hide IsCredentialRequest;
  }

  lemma {:induction false} RefresherInvHolds(es: seq<Step>)
    ensures Inv(SessionProtocol.Run(es)) && RefresherInv(SessionProtocol.Run(es))
  {
    InvHolds(es);
    if es != [] {
      RefresherInvHolds(es[..|es| - 1]);
      NextKeepsRefresherInv(SessionProtocol.Run(es[..|es| - 1]), es[|es| - 1]);
    }
  }

  // ---------- When two are at the API ----------

  /** A refresh of the server's own and one that it forwards. */
  ghost predicate OverlapsSilent(s: State, token: string) {
    Silent(s, token) != {} && Forwarded(s, token) != {}
  }

  /** Two that the server forwards, one of which the browser has given up or never shared. */
  ghost predicate OverlapsGivenUp(s: State, token: string) {
    exists j, k :: j in Forwarded(s, token) && k in Forwarded(s, token) && j != k
                   && (GivenUp(s.tasks[j]) || !IsRefresher(s, j))
  }

  /**
   * In every run the server has at most one refresh of its own per token at the API. More than one of a token are
   * there exactly when the server forwards one beside its own, or beside another that the browser has given up.
   */
  lemma {:induction false} WhenRefreshesOverlap(es: seq<Step>, token: string)
    ensures var s := SessionProtocol.Run(es);
            && |Silent(s, token)| <= 1
            && (Refreshes(s, token) > 1 <==> OverlapsSilent(s, token) || OverlapsGivenUp(s, token))
  {
    var s := SessionProtocol.Run(es);
    RefresherInvHolds(es);
    AtMostOneSilent(es, token);
    hide SessionProtocol.Run, Inv, RefresherInv, AtApi;
    var silent, forwarded := Silent(s, token), Forwarded(s, token);
    if |forwarded| > 1 {
      var j, k := TwoMembers(forwarded);
      OneIsGivenUp(es, token, j, k);
      assert OverlapsGivenUp(s, token);
    }
    if OverlapsGivenUp(s, token) {
      var j, k :| j in forwarded && k in forwarded && j != k;
      SubsetCardinality({j, k}, forwarded);
    }
    if OverlapsSilent(s, token) {
      assert |silent| > 0 && |forwarded| > 0;
    }
  }

  lemma {:induction false} AtMostOneSilent(es: seq<Step>, token: string)
    ensures |Silent(SessionProtocol.Run(es), token)| <= 1
  {
    var s := SessionProtocol.Run(es);
    var silent := Silent(s, token);
    if |silent| > 1 {
      var q, r := TwoMembers(silent);
      OneRefreshAtATime(es, q, r);
    }
  }

  /** Of two forwarded refreshes, the browser still waits for one at most. */
  lemma {:induction false} OneIsGivenUp(es: seq<Step>, token: string, j: nat, k: nat)
    requires var s := SessionProtocol.Run(es); j in Forwarded(s, token) && k in Forwarded(s, token) && j != k
    ensures var s := SessionProtocol.Run(es);
            GivenUp(s.tasks[j]) || !IsRefresher(s, j) || GivenUp(s.tasks[k]) || !IsRefresher(s, k)
  {
    var s := SessionProtocol.Run(es);
    RefresherInvHolds(es);
    hide SessionProtocol.Run, Inv;
    if IsRefresher(s, j) && IsRefresher(s, k) && !GivenUp(s.tasks[j]) && !GivenUp(s.tasks[k]) {
      var q :| 0 <= q < |s.refresher| && s.refresher[q] == Some(j);
      var r :| 0 <= r < |s.refresher| && s.refresher[r] == Some(k);
      assert AnsweredBefore(s.tasks[j]) && AnsweredBefore(s.tasks[k]);
      OneRefreshAtATime(es, q, r);
    }
  }

  lemma TwoMembers(s: set<nat>) returns (j: nat, k: nat)
    requires |s| > 1
    ensures j in s && k in s && j != k
  {
    j :| j in s;
    assert |s - {j}| > 0;
    k :| k in s - {j};
  }

  lemma SubsetCardinality(a: set<nat>, b: set<nat>)
    requires a <= b
    ensures |a| <= |b|
  {
    assert b == a + (b - a);
  }

  // ---------- The steps that start and end a refresh ----------

  /** The step sends a refresh with this token to the API: a forwarded one, or a new run of the server's latch. */
  predicate Starts(s: State, e: Step, token: string) {
    && e.Server? && e.task < |s.tasks| && CanHappen(s, s.tasks[e.task], e.event, e.applied)
    && var t := s.tasks[e.task];
    && t.refreshToken == token
    && if e.event.Send? then IsRefresh(t.request)
       else BffProxy.Step(t.request, token, t.phase, e.event).AwaitingTokens? && token !in s.silent.inFlight
  }

  /** The step brings the end of a refresh with this token. */
  predicate Ends(s: State, e: Step, token: string) {
    match e
    case Server(k, event, applied) =>
      && k < |s.tasks| && CanHappen(s, s.tasks[k], event, applied) && AtApi(s.tasks[k], token)
      && !BffProxy.Step(s.tasks[k].request, token, s.tasks[k].phase, event).Attempting?
    case SilentFinish(r, _) => r in Silent(s, token)
    case _ => false
  }

  /** A task changes: it leaves or joins those at the API. */
  lemma ForwardedAfter(s: State, s': State, k: nat, token: string)
    requires k < |s.tasks| && |s'.tasks| == |s.tasks|
    requires forall j | 0 <= j < |s.tasks| && j != k :: s'.tasks[j] == s.tasks[j]
    ensures |Forwarded(s', token)| == |Forwarded(s, token)| + (if AtApi(s'.tasks[k], token) then 1 else 0)
                                      - (if AtApi(s.tasks[k], token) then 1 else 0)
  {
    OthersAndOne(s, k, token);
    OthersAndOne(s', k, token);
    hide AtApi, Forwarded;
    assert Others(s, k, token) == Others(s', k, token) by { SameOthers(s, s', k, token); }
  }

  function Others(s: State, k: nat, token: string): set<nat> {
    set j | 0 <= j < |s.tasks| && j != k && AtApi(s.tasks[j], token)
  }

  lemma SameOthers(s: State, s': State, k: nat, token: string)
    requires |s'.tasks| == |s.tasks| && forall j | 0 <= j < |s.tasks| && j != k :: s'.tasks[j] == s.tasks[j]
    ensures Others(s, k, token) == Others(s', k, token)
  {
    hide AtApi;
  }

  lemma OthersAndOne(s: State, k: nat, token: string)
    requires k < |s.tasks|
    ensures |Forwarded(s, token)| == |Others(s, k, token)| + (if AtApi(s.tasks[k], token) then 1 else 0)
  {
    hide AtApi;
    if AtApi(s.tasks[k], token) {
      assert Forwarded(s, token) == Others(s, k, token) + {k};
    } else {
      assert Forwarded(s, token) == Others(s, k, token);
    }
  }

  /** Tasks that change in nothing but the browser's view, and new ones, change nothing. */
  lemma ForwardedStays(s: State, s': State, token: string)
    requires |s.tasks| <= |s'.tasks|
    requires forall j | 0 <= j < |s.tasks| :: AtApi(s'.tasks[j], token) == AtApi(s.tasks[j], token)
    requires forall j | |s.tasks| <= j < |s'.tasks| :: !AtApi(s'.tasks[j], token)
    ensures Forwarded(s', token) == Forwarded(s, token)
  {
    hide AtApi;
  }

  lemma SilentFinishes(s: State, s': State, r: nat, refreshed: bool, token: string)
    requires s'.silent == SF.Step(Key, s.silent, SF.Finish(r, refreshed))
    ensures |Silent(s', token)| == |Silent(s, token)| - (if r in Silent(s, token) then 1 else 0)
  {
    assert Silent(s', token) == Silent(s, token) - {r};
  }

  lemma SilentCleansUp(s: State, s': State, r: nat, token: string)
    requires s'.silent == SF.Step(Key, s.silent, SF.CleanUp(r))
    ensures Silent(s', token) == Silent(s, token)
  {
  }

  lemma SilentCall(s: State, s': State, own: string, token: string)
    requires s'.silent == SF.Step(Key, s.silent, SF.Call(own))
    ensures |Silent(s', token)| == |Silent(s, token)| + (if own == token && token !in s.silent.inFlight then 1 else 0)
  {
    var n := |s.silent.runs|;
    if own == token && token !in s.silent.inFlight {
      assert Silent(s', token) == Silent(s, token) + {n};
    } else {
      assert Silent(s', token) == Silent(s, token);
    }
  }

  lemma ServerCounts(s: State, e: Step, token: string)
    requires e.Server? && e.task < |s.tasks| && CanHappen(s, s.tasks[e.task], e.event, e.applied)
    ensures Refreshes(Next(s, e), token)
            == Refreshes(s, token) + (if Starts(s, e, token) then 1 else 0) - (if Ends(s, e, token) then 1 else 0)
  {
    var k, t := e.task, s.tasks[e.task];
    var s' := Next(s, e);
    ForwardedAfter(s, s', k, token);
    RefreshesStayOut(t, e.event);
    if s'.tasks[k].phase.AwaitingTokens? {
      SilentCall(s, s', t.refreshToken, token);
    }
    hide SF.Step, Forwarded;
  }

  /** A forwarded refresh never waits for a refresh of the server. */
  lemma RefreshesStayOut(t: Task, e: Event)
    requires Enabled(t.phase, e)
    ensures BffProxy.Step(t.request, t.refreshToken, t.phase, e).AwaitingTokens? ==> !IsRefresh(t.request) && e.Result?
  {
  }

  /** Exactly these steps change how many refreshes of the token are at the API. */
  lemma {:induction false} StepsCount(s: State, e: Step, token: string)
    requires Inv(s)
    ensures Refreshes(Next(s, e), token)
            == Refreshes(s, token) + (if Starts(s, e, token) then 1 else 0) - (if Ends(s, e, token) then 1 else 0)
  {
    var s' := Next(s, e);
    if e.Server? {
      if e.task < |s.tasks| && CanHappen(s, s.tasks[e.task], e.event, e.applied) { ServerCounts(s, e, token); }
    } else if e.SilentFinish? {
      ForwardedStays(s, s', token);
      SilentFinishes(s, s', e.run, e.refreshed, token);
    } else {
      OthersStay(s, e, token);
    }
  }

  lemma OthersStay(s: State, e: Step, token: string)
    requires Inv(s) && !e.Server? && !e.SilentFinish?
    ensures Refreshes(Next(s, e), token) == Refreshes(s, token)
  {
    hide LinkInv, AttemptInv, ChangeInv, CanHappen, RefreshEnds, RefreshResult, IsCredentialRequest;
    ForwardedStays(s, Next(s, e), token);
    if e.SilentCleanUp? { SilentCleansUp(s, Next(s, e), e.run, token); }
  }

  // ---------- Whole runs ----------

  predicate AtMostOneThroughout(es: seq<Step>, token: string) {
    forall n: nat | n <= |es| :: Refreshes(SessionProtocol.Run(es[..n]), token) <= 1
  }

  /** No refresh with this token starts while another is at the API. */
  predicate NoneStartsBesideAnother(es: seq<Step>, token: string) {
    forall n: nat | n < |es| && Refreshes(SessionProtocol.Run(es[..n]), token) == 1 ::
      !Starts(SessionProtocol.Run(es[..n]), es[n], token)
  }

  lemma CountAfter(es: seq<Step>, n: nat, token: string)
    requires n < |es|
    ensures var s := SessionProtocol.Run(es[..n]);
            Refreshes(SessionProtocol.Run(es[..n + 1]), token)
            == Refreshes(s, token) + (if Starts(s, es[n], token) then 1 else 0)
               - (if Ends(s, es[n], token) then 1 else 0)
    ensures var s := SessionProtocol.Run(es[..n]);
            Starts(s, es[n], token) ==> !Ends(s, es[n], token)
  {
    assert es[..n + 1][..n] == es[..n];
    InvHolds(es[..n]);
    StepsCount(SessionProtocol.Run(es[..n]), es[n], token);
  }

  /** In a run there is never more than one at the API, exactly when none is started beside another. */
  lemma {:induction false} OneAtATimeIff(es: seq<Step>, token: string)
    ensures AtMostOneThroughout(es, token) <==> NoneStartsBesideAnother(es, token)
  {
    hide SessionProtocol.Run, Refreshes, Starts, Ends;
    if AtMostOneThroughout(es, token) {
      forall n: nat | n < |es| && Refreshes(SessionProtocol.Run(es[..n]), token) == 1
        ensures !Starts(SessionProtocol.Run(es[..n]), es[n], token)
      {
        CountAfter(es, n, token);
        assert Refreshes(SessionProtocol.Run(es[..n + 1]), token) <= 1;
      }
    }
    if NoneStartsBesideAnother(es, token) {
      forall n: nat | n <= |es| ensures Refreshes(SessionProtocol.Run(es[..n]), token) <= 1 {
        StaysAtMostOne(es, n, token);
      }
    }
  }

  lemma {:induction false} StaysAtMostOne(es: seq<Step>, n: nat, token: string)
    requires n <= |es| && NoneStartsBesideAnother(es, token)
    ensures Refreshes(SessionProtocol.Run(es[..n]), token) <= 1
  {
    if n == 0 {
      NoneAtStart(token);
    } else {
      hide SessionProtocol.Run, Refreshes, Starts, Ends;
      StaysAtMostOne(es, n - 1, token);
      CountAfter(es, n - 1, token);
    }
  }

  lemma NoneAtStart(token: string)
    ensures Refreshes(SessionProtocol.Run([]), token) == 0
  {
    assert Silent(SessionProtocol.Run([]), token) == {} && Forwarded(SessionProtocol.Run([]), token) == {};
  }

  // ---------- Runs in which several are at the API ----------

  const READ := Request("GET", "assets", false)

  /** A request is opened, sent with the token and answered with 401. */
  lemma AnsweredExpired(run: seq<Step>, request: Request, token: string) returns (es: seq<Step>)
    ensures var s, t := SessionProtocol.Run(run), SessionProtocol.Run(es); var k := |s.tasks|;
            t == Next(s.(tasks := s.tasks + [Asked(request, token)]), Server(k, Result(Replied(401)), false))
  {
    var k := |SessionProtocol.Run(run).tasks|;
    RequestIsAsked(SessionProtocol.Run(run), request, token);
    hide SessionProtocol.Run, Next;
    es := run + [Open(request)];
    RunOn(run, Open(request));
    RunOn(es, Dispatch(k, token));
    es := es + [Dispatch(k, token)];
    RunOn(es, Server(k, Send, false));
    es := es + [Server(k, Send, false)];
    RunOn(es, Server(k, Result(Replied(401)), false));
    es := es + [Server(k, Result(Replied(401)), false)];
  }

  lemma RequestIsAsked(s: State, request: Request, token: string)
    ensures var k := |s.tasks|;
            Next(Next(Next(s, Open(request)), Dispatch(k, token)), Server(k, Send, false))
            == s.(tasks := s.tasks + [Asked(request, token)])
  {
    var k := |s.tasks|;
    var sent := s.(tasks := s.tasks + [Sent(NewTask(request), token)]);
    assert Next(Next(s, Open(request)), Dispatch(k, token)) == sent;
  }

  /** A request in its first attempt. */
  function Asked(request: Request, token: string): Task {
    Task(request, Waiting, false, Attempting(1), token, 0, 1, 1, 1, 0, None)
  }

  /** The browser's latch is free. */
  predicate Free(s: State) { "" !in s.access.inFlight }

  /** The browser's own refresh: an expired change makes it send one, and the server forwards it. */
  lemma BrowserRefreshes(run: seq<Step>, token: string) returns (es: seq<Step>)
    requires Free(SessionProtocol.Run(run))
    ensures var s, t := SessionProtocol.Run(run), SessionProtocol.Run(es); var k := |s.tasks|;
            && |t.tasks| == k + 2 && t.tasks[..k] == s.tasks && AtApi(t.tasks[k + 1], token)
            && !IsRefresh(t.tasks[k].request) && t.tasks[k + 1].browser == Waiting
            && t.silent == s.silent && HoldsLatch(t, k + 1)
  {
    var s := SessionProtocol.Run(run);
    var k := |s.tasks|;
    InvHolds(run);
    es := AnsweredExpired(run, CHANGE, token);
    ChangeIsAnswered(s, token);
    assert |s.refresher| == |s.access.runs|;
    hide SessionProtocol.Run, Next, Inv;
    var expired := s.(tasks := s.tasks + [Asked(CHANGE, token).(phase := Answered(401))]);
    RunOn(es, Deliver(k, false, true));
    es := es + [Deliver(k, false, true)];
    RefreshIsOpened(s, token);
    RunOn(es, Dispatch(k + 1, token));
    es := es + [Dispatch(k + 1, token)];
    RunOn(es, Server(k + 1, Send, false));
    es := es + [Server(k + 1, Send, false)];
  }

  /** The newest run of the browser's refresh holds the latch, and its request is this one. */
  predicate HoldsLatch(s: State, k: nat) {
    var r := |s.refresher| - 1;
    && |s.access.runs| == |s.refresher| > 0 && s.refresher[r] == Some(k)
    && "" in s.access.inFlight && s.access.inFlight[""] == r && s.access.runs[r] == SF.Run("", SF.Running)
  }

  lemma RefreshIsOpened(s: State, token: string)
    requires Free(s) && |s.refresher| == |s.access.runs|
    ensures var k := |s.tasks|;
            var expired := s.(tasks := s.tasks + [Asked(CHANGE, token).(phase := Answered(401))]);
            var added := Next(expired, Deliver(k, false, true));
            var t := Next(Next(added, Dispatch(k + 1, token)), Server(k + 1, Send, false));
            && |t.tasks| == k + 2 && t.tasks[..k] == s.tasks && AtApi(t.tasks[k + 1], token)
            && !IsRefresh(t.tasks[k].request) && t.tasks[k + 1].browser == Waiting
            && t.silent == s.silent && HoldsLatch(t, k + 1)
  {
    var k := |s.tasks|;
    var expired := s.(tasks := s.tasks + [Asked(CHANGE, token).(phase := Answered(401))]);
    var added := Next(expired, Deliver(k, false, true));
    assert |added.tasks| == k + 2 && added.tasks[..k] == s.tasks && added.tasks[k + 1] == NewTask(REFRESH);
  }

  lemma ChangeIsAnswered(s: State, token: string)
    ensures Next(s.(tasks := s.tasks + [Asked(CHANGE, token)]), Server(|s.tasks|, Result(Replied(401)), false))
            == s.(tasks := s.tasks + [Asked(CHANGE, token).(phase := Answered(401))])
  {
    assert Upper("PUT")[0] == 'P' && "GET"[0] == 'G';
  }

  /** The browser gives up waiting for its newest refresh, and its latch is free again. */
  lemma BrowserGivesUp(run: seq<Step>, k: nat) returns (es: seq<Step>)
    requires var s := SessionProtocol.Run(run); HoldsLatch(s, k) && k < |s.tasks| && s.tasks[k].browser == Waiting
    ensures var s, t := SessionProtocol.Run(run), SessionProtocol.Run(es);
            t.tasks == s.tasks[k := s.tasks[k].(browser := Finished(None))] && t.silent == s.silent && Free(t)
  {
    var s := SessionProtocol.Run(run);
    var r := |s.refresher| - 1;
    GivingUpFrees(s, k);
    hide SessionProtocol.Run, Next, HoldsLatch, Free;
    RunOn(run, GiveUp(k));
    es := run + [GiveUp(k)];
    RunOn(es, AccessFinish(r, false));
    es := es + [AccessFinish(r, false)];
    RunOn(es, AccessCleanUp(r));
    es := es + [AccessCleanUp(r)];
  }

  lemma GivingUpFrees(s: State, k: nat)
    requires HoldsLatch(s, k) && k < |s.tasks| && s.tasks[k].browser == Waiting
    ensures var r := |s.refresher| - 1;
            var t := Next(Next(Next(s, GiveUp(k)), AccessFinish(r, false)), AccessCleanUp(r));
            t.tasks == s.tasks[k := s.tasks[k].(browser := Finished(None))] && t.silent == s.silent && Free(t)
  {
    var r := |s.refresher| - 1;
    var finished := Next(Next(s, GiveUp(k)), AccessFinish(r, false));
    assert finished.access.runs[r].progress.Finishing? && finished.access.inFlight == s.access.inFlight;
  }

  /** One more task at the API, the last one. */
  lemma OneMoreForwarded(s: State, t: State, token: string)
    requires |t.tasks| == |s.tasks| + 2 && t.tasks[..|s.tasks|] == s.tasks
    requires !IsRefresh(t.tasks[|s.tasks|].request) && AtApi(t.tasks[|s.tasks| + 1], token)
    ensures |Forwarded(t, token)| == |Forwarded(s, token)| + 1
  {
    var k := |s.tasks|;
    assert !AtApi(t.tasks[k], token);
    hide AtApi, IsRefresh;
    forall j | 0 <= j < k ensures t.tasks[j] == s.tasks[j] { assert t.tasks[..k][j] == s.tasks[j]; }
    assert Forwarded(t, token) == Forwarded(s, token) + {k + 1};
  }

  /** The server forwards any number of refreshes of one token at the same time, when the browser gives them up. */
  lemma {:induction false} AnyNumberAtApi(n: nat, token: string) returns (es: seq<Step>)
    ensures var s := SessionProtocol.Run(es); |Forwarded(s, token)| == n && Free(s) && s.silent == SF.Start()
  {
    if n == 0 {
      es := [];
      NoneAtStart(token);
    } else {
      var run := AnyNumberAtApi(n - 1, token);
      hide SessionProtocol.Run, Next, HoldsLatch, Free, Forwarded, IsRefresh;
      var k := |SessionProtocol.Run(run).tasks| + 1;
      var refreshed := BrowserRefreshes(run, token);
      OneMoreForwarded(SessionProtocol.Run(run), SessionProtocol.Run(refreshed), token);
      es := BrowserGivesUp(refreshed, k);
      ForwardedAfter(SessionProtocol.Run(refreshed), SessionProtocol.Run(es), k, token);
    }
  }

  lemma NothingAtStart(token: string)
    ensures var s := SessionProtocol.Run([]);
            |Silent(s, token)| == 0 && |Forwarded(s, token)| == 0 && Free(s) && token !in s.silent.inFlight
  {
    NoneAtStart(token);
  }

  /** And beside a refresh that it forwards, the server starts one of its own for a read that expires. */
  lemma {:induction false} SilentBesideForwarded(token: string) returns (es: seq<Step>)
    requires Trim(token) != ""
    ensures var s := SessionProtocol.Run(es); |Silent(s, token)| == 1 && |Forwarded(s, token)| == 1
  {
    hide SessionProtocol.Run, Next, HoldsLatch, Free, Forwarded, Silent, AtApi, IsRefresh, Trim;
    var start := SessionProtocol.Run([]);
    NothingAtStart(token);
    var run := BrowserRefreshes([], token);
    OneMoreForwarded(start, SessionProtocol.Run(run), token);
    SameSilent(start, SessionProtocol.Run(run), token);
    es := ReadStartsSilent(run, token);
  }

  lemma ReadStartsSilent(run: seq<Step>, token: string) returns (es: seq<Step>)
    requires Trim(token) != "" && token !in SessionProtocol.Run(run).silent.inFlight
    ensures var s, t := SessionProtocol.Run(run), SessionProtocol.Run(es);
            |Silent(t, token)| == |Silent(s, token)| + 1 && Forwarded(t, token) == Forwarded(s, token)
  {
    hide SessionProtocol.Run, Next, Forwarded, Silent, SF.Step;
    var s := SessionProtocol.Run(run);
    es := AnsweredExpired(run, READ, token);
    ReadWaits(s, token);
    WaitingIsNotForwarded(s, SessionProtocol.Run(es), token);
    SilentCall(s, SessionProtocol.Run(es), token, token);
  }

  lemma WaitingIsNotForwarded(s: State, t: State, token: string)
    requires |t.tasks| == |s.tasks| + 1 && t.tasks[..|s.tasks|] == s.tasks && t.tasks[|s.tasks|].phase == AwaitingTokens
    ensures Forwarded(t, token) == Forwarded(s, token)
  {
    forall j | 0 <= j < |s.tasks| ensures t.tasks[j] == s.tasks[j] { assert t.tasks[..|s.tasks|][j] == s.tasks[j]; }
    ForwardedStays(s, t, token);
  }

  lemma SameSilent(s: State, t: State, token: string)
    requires s.silent == t.silent
    ensures Silent(s, token) == Silent(t, token)
  {
  }

  /** An expired read makes the server refresh the token, if no such refresh is in flight. */
  lemma ReadWaits(s: State, token: string)
    requires Trim(token) != "" && token !in s.silent.inFlight
    ensures var t := Next(s.(tasks := s.tasks + [Asked(READ, token)]), Server(|s.tasks|, Result(Replied(401)), false));
            && t.silent == SF.Step(Key, s.silent, SF.Call(token))
            && |t.tasks| == |s.tasks| + 1 && t.tasks[..|s.tasks|] == s.tasks
            && t.tasks[|s.tasks|].phase == AwaitingTokens
  {
    assert Upper("GET") == "GET";
  }
}
