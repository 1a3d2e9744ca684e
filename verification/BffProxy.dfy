/**
 * What the server does for one browser request: it asks the API, tries again when that is safe, and for an
 * expired session refreshes the tokens once and asks again. Cookies, headers and bodies are left out.
 */
module BffProxy {
  import opened Options
  import opened Text
  import opened UpstreamFetch

  /** A request of the browser; `path` is the joined path behind the API's base. */
  datatype Request = Request(httpMethod: string, path: string, hasIdempotencyKey: bool)

  predicate IsCredentialPath(path: string) {
    path in {"auth/login", "auth/register", "auth/refresh", "auth/logout", "auth/logout-all", "auth/invite/accept"}
  }

  /** `canSilentlyRefreshSession`; an absent refresh cookie is the empty text. */
  predicate CanSilentlyRefresh(request: Request, refreshToken: string) {
    Upper(request.httpMethod) == "GET" && !IsCredentialPath(request.path) && Trim(refreshToken) != ""
  }

  /** Where the server stands: before the API is asked, during attempt n, while tokens are fetched, and so on. */
  datatype Phase = Entered | Attempting(n: nat) | AwaitingTokens | Replaying | Answered(status: nat)

  datatype Event =
    | Refuse(status: nat)          // the server answers itself: bad path, CSRF, configuration
    | Send                         // the first attempt starts
    | Result(reply: Reply)         // what the current attempt gave
    | Tokens(refreshed: bool)      // the shared refresh has ended
    | ReplayResult(reply: Reply)   // what the one replay gave

  /** Whether the event can happen in this phase. */
  predicate Enabled(phase: Phase, e: Event) {
    match e
    case Refuse(_) => phase.Entered?
    case Send => phase.Entered?
    case Result(_) => phase.Attempting?
    case Tokens(_) => phase.AwaitingTokens?
    case ReplayResult(_) => phase.Replaying?
  }

  function Step(request: Request, refreshToken: string, phase: Phase, e: Event): Phase
    requires Enabled(phase, e)
  {
    match e
    case Refuse(status) => Answered(status)
    case Send => Attempting(1)
    case Result(Threw(error)) =>
      if WillRetry(request.httpMethod, request.hasIdempotencyKey, phase.n, e.reply) then Attempting(phase.n + 1)
      else Answered(Classify(error).status)
    case Result(Replied(status)) =>
      if status == 401 && CanSilentlyRefresh(request, refreshToken) then AwaitingTokens else Answered(status)
    case Tokens(refreshed) => if refreshed then Replaying else Answered(401)
    case ReplayResult(Replied(status)) => Answered(status)
    case ReplayResult(Threw(_)) => Answered(401)
  }

  /** The events in order, each possible when it happens, lead from one phase to the other. */
  predicate Leads(request: Request, refreshToken: string, from: Phase, es: seq<Event>, to: Phase)
    decreases es
  {
    if es == [] then from == to
    else Enabled(from, es[0]) && Leads(request, refreshToken, Step(request, refreshToken, from, es[0]), es[1..], to)
  }

  lemma {:induction false} LeadsAppend(request: Request, refreshToken: string, from: Phase, es: seq<Event>, mid: Phase,
                                       e: Event)
    requires Leads(request, refreshToken, from, es, mid) && Enabled(mid, e)
    ensures Leads(request, refreshToken, from, es + [e], Step(request, refreshToken, mid, e))
    decreases es
  {
    if es == [] {
      assert es + [e] == [e] && [e][1..] == [];
    } else {
      LeadsAppend(request, refreshToken, Step(request, refreshToken, from, es[0]), es[1..], mid, e);
      assert (es + [e])[1..] == es[1..] + [e];
    }
  }

  /** The results of the first n attempts, in order. */
  function Results(upstream: nat -> Reply, n: nat): (es: seq<Event>)
    ensures |es| == n
  {
    if n == 0 then [] else Results(upstream, n - 1) + [Result(upstream(n))]
  }

  /** A started fetch whose attempts were all tried again is in the attempt after them. */
  lemma {:induction false} RetriesLead(request: Request, refreshToken: string, upstream: nat -> Reply, n: nat)
    requires forall k | 1 <= k <= n :: WillRetry(request.httpMethod, request.hasIdempotencyKey, k, upstream(k))
    ensures Leads(request, refreshToken, Entered, [Send] + Results(upstream, n), Attempting(n + 1))
  {
    hide Classify, ShouldRetry;
    if n == 0 {
      assert [Send] + Results(upstream, 0) == [Send] && [Event.Send][1..] == [];
      assert Leads(request, refreshToken, Attempting(1), [], Attempting(1));
    } else {
      RetriesLead(request, refreshToken, upstream, n - 1);
      LeadsAppend(request, refreshToken, Entered, [Send] + Results(upstream, n - 1), Attempting(n),
                  Result(upstream(n)));
      assert [Send] + Results(upstream, n) == [Send] + Results(upstream, n - 1) + [Result(upstream(n))];
    }
  }

  /** The run is fed with what the upstream, the shared refresh and the replay give, and with nothing else. */
  ghost predicate FedFrom(trace: seq<Event>, n: nat, upstream: nat -> Reply, tokens: bool, replay: Reply) {
    var start := [Send] + Results(upstream, n);
    trace == start || trace == start + [Tokens(tokens)] || trace == start + [Tokens(tokens)] + [ReplayResult(replay)]
  }

  /**
   * What the browser is told, by the reply to the last attempt. An expired session is refreshed for reads only, behind
   * no credential path and with a refresh cookie; then the one replay is the answer, and the 401 stands without one.
   */
  predicate AnswerIs(request: Request, refreshToken: string, last: Reply, tokens: bool, replay: Reply,
                     status: nat, keepTokens: bool)
  {
    match last
    case Threw(error) => status == Classify(error).status && !keepTokens
    case Replied(replied) =>
      if replied == 401 && Upper(request.httpMethod) == "GET" && Trim(refreshToken) != ""
         && request.path !in {"auth/login", "auth/register", "auth/refresh", "auth/logout", "auth/logout-all",
                              "auth/invite/accept"}
      then keepTokens == tokens && status == (if tokens && replay.Replied? then replay.status else 401)
      else status == replied && !keepTokens
  }

  /** The attempts before the n-th were tried again, and the n-th was not. */
  ghost predicate LastAttempt(request: Request, upstream: nat -> Reply, n: nat) {
    && 1 <= n <= 3 && !WillRetry(request.httpMethod, request.hasIdempotencyKey, n, upstream(n))
    && forall k | 1 <= k < n :: WillRetry(request.httpMethod, request.hasIdempotencyKey, k, upstream(k))
  }

  /**
   * `proxyBffRequest` around the retrying fetch. `early` is the status of a refusal before the API is asked;
   * `tokens` tells whether the shared refresh, if it is used, yields tokens. The answer and the session to be
   * kept are those of a run of the phases above, and `trace` is that run.
   */
  method ProxyBffRequest(request: Request, refreshToken: string, early: Option<nat>, upstream: nat -> Reply,
                         tokens: bool, replay: Reply)
    returns (status: nat, keepTokens: bool, trace: seq<Event>)
    ensures Leads(request, refreshToken, Entered, trace, Answered(status))
    ensures early.Some? ==> trace == [Refuse(early.value)] && status == early.value && !keepTokens
    ensures early.None? ==> exists n :: LastAttempt(request, upstream, n) && FedFrom(trace, n, upstream, tokens, replay)
                              && AnswerIs(request, refreshToken, upstream(n), tokens, replay, status, keepTokens)
    ensures keepTokens <==> Tokens(true) in trace
  {
    hide WillRetry, Classify, CanSilentlyRefresh, AnswerIs;
    keepTokens := false;
    if early.Some? {
      trace := [Refuse(early.value)];
      assert Leads(request, refreshToken, Answered(early.value), trace[1..], Answered(early.value));
      return early.value, false, trace;
    }
    var attempt, log, sleeps := FetchUpstreamWithRetry(request.httpMethod, request.hasIdempotencyKey, upstream);
    var n := attempt.attempts;
    RetriesLead(request, refreshToken, upstream, n - 1);
    LeadsAppend(request, refreshToken, Entered, [Send] + Results(upstream, n - 1), Attempting(n), Result(upstream(n)));
    trace := [Send] + Results(upstream, n - 1) + [Result(upstream(n))];
    assert trace == [Send] + Results(upstream, n);
    assert FedFrom(trace, n, upstream, tokens, replay);
    NoTokensInResults(upstream, n - 1);
    assert LastAttempt(request, upstream, n);
    AnswerFollows(request, refreshToken, upstream(n), tokens, replay);
    if attempt.Failed? {
      return attempt.failure.status, false, trace;
    }
    status := attempt.status;
    if status == 401 && CanSilentlyRefresh(request, refreshToken) {
      LeadsAppend(request, refreshToken, Entered, trace, AwaitingTokens, Tokens(tokens));
      trace := trace + [Tokens(tokens)];
      assert FedFrom(trace, n, upstream, tokens, replay);
      if tokens {
        keepTokens := true;
        LeadsAppend(request, refreshToken, Entered, trace, Replaying, ReplayResult(replay));
        trace := trace + [ReplayResult(replay)];
        assert FedFrom(trace, n, upstream, tokens, replay);
        if replay.Replied? {
          status := replay.status;
        }
      }
    }
  }

  lemma AnswerFollows(request: Request, refreshToken: string, last: Reply, tokens: bool, replay: Reply)
    ensures last.Threw? ==>
              AnswerIs(request, refreshToken, last, tokens, replay, Classify(last.error).status, false)
    ensures last.Replied? ==>
              if last.status == 401 && CanSilentlyRefresh(request, refreshToken)
              then AnswerIs(request, refreshToken, last, tokens, replay,
                            if tokens && replay.Replied? then replay.status else 401, tokens)
              else AnswerIs(request, refreshToken, last, tokens, replay, last.status, false)
  {
  }

  lemma {:induction false} NoTokensInResults(upstream: nat -> Reply, n: nat)
    ensures forall k | 0 <= k < n :: Results(upstream, n)[k].Result?
  {
    if n > 0 { NoTokensInResults(upstream, n - 1); }
  }

  // ---------- Changes ----------

  /** The results of a change: each but the last is a refused connection that carried an idempotency key. */
  ghost predicate ChangeResults(request: Request, es: seq<Event>, n: nat) {
    && es != [] && n + |es| <= MAX_ATTEMPTS + 1
    && (forall k | 0 <= k < |es| :: es[k].Result?)
    && (forall k | 0 <= k < |es| - 1 :: request.hasIdempotencyKey && es[k].reply.Threw?
                                        && Classify(es[k].reply.error).kind == Refused)
  }

  lemma {:induction false} ChangeAttempts(request: Request, refreshToken: string, n: nat, es: seq<Event>, status: nat)
    requires !IsSafe(request.httpMethod) && 1 <= n <= MAX_ATTEMPTS
    requires Leads(request, refreshToken, Attempting(n), es, Answered(status))
    ensures ChangeResults(request, es, n)
    decreases es
  {
    hide Classify, Upper;
    var next := Step(request, refreshToken, Attempting(n), es[0]);
    if next.Attempting? {
      ChangeAttempts(request, refreshToken, n + 1, es[1..], status);
      assert es == [es[0]] + es[1..];
    } else {
      assert es[1..] == [];
    }
  }

  /**
   * Every complete server request that changes something: either the server refuses it without asking the API,
   * or it asks, and asks again only behind refused connections and with an idempotency key. So without a key
   * it asks exactly once. Tokens are never refreshed for it and it is never replayed.
   */
  lemma ChangeRun(request: Request, refreshToken: string, es: seq<Event>, status: nat)
    requires !IsSafe(request.httpMethod) && Leads(request, refreshToken, Entered, es, Answered(status))
    ensures es == [Refuse(status)] || (|es| >= 2 && es[0] == Send && ChangeResults(request, es[1..], 1))
    ensures !request.hasIdempotencyKey && es[0] == Send ==> |es| == 2
  {
    hide Classify, Upper;
    if es[0].Refuse? {
      assert es[1..] == [];
      assert es == [es[0]];
    } else {
      ChangeAttempts(request, refreshToken, 1, es[1..], status);
    }
  }
}
