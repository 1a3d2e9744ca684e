/**
 * Browser requests, the server in front of the API and the two shared refreshes, all interleaved: any number
 * of requests may be under way, and each step below is one that the program can take between two waits.
 */
module SessionProtocol {
  import opened Options
  import opened Text
  import opened UpstreamFetch
  import opened BffProxy
  import SF = SingleFlight

  /** `isCredentialAuthRequest`: a 401 here means wrong input, not an expired session. */
  predicate IsCredentialRequest(path: string) {
    path in {"auth/login", "auth/register", "auth/forgot-password", "auth/reset-password", "auth/refresh"}
  }

  const REFRESH := Request("POST", "auth/refresh", false)

  /** Where the browser stands with a request. `AwaitingRefresh` holds the number of its call to the latch. */
  datatype Browser = Ready | Waiting | AwaitingRefresh(caller: nat) | Finished(status: Option<nat>)

  /**
   * One browser request. `retried` is the interceptor's mark and `waitedFor` the request's call to the browser's
   * latch; `phase` is that of the newest server request, `refreshToken` its cookie and `caller` its call to the
   * server's latch. The counters are the requests sent to the server, the attempts of the newest one, all attempts,
   * and how often the API applied the request.
   */
  datatype Task = Task(request: Request, browser: Browser, retried: bool, phase: Phase, refreshToken: string,
                       caller: nat, sent: nat, attempts: nat, allAttempts: nat, applied: nat, waitedFor: Option<nat>)

  /**
   * `refresher[r]` is the request that run r of the browser's refresh sent, if it sent one; `rotated` holds the runs
   * that were told that a sibling had rotated the token.
   */
  datatype State = State(tasks: seq<Task>, silent: SF.Latch<bool>, access: SF.Latch<bool>, refresher: seq<Option<nat>>,
                         rotated: set<nat>)

  datatype Step =
    | Open(request: Request)
    | Dispatch(task: nat, refreshToken: string)
    | Server(task: nat, event: Event, applied: bool)
    | SilentFinish(run: nat, refreshed: bool)
    | SilentCleanUp(run: nat)
    | Deliver(task: nat, passwordChange: bool, hasCsrfCookie: bool)
    | GiveUp(task: nat)
    | AccessFinish(run: nat, rotated: bool)
    | AccessCleanUp(run: nat)
    | Resume(task: nat, refreshToken: string)

  function Key(token: string): string { token }

  /** A reply that tells that the API cannot have applied the request. */
  predicate NotApplied(reply: Reply) {
    match reply
    case Replied(status) => status == 401
    case Threw(error) => Classify(error).kind == Refused
  }

  /** When a server event can happen: tokens arrive from the caller's own run once it is done. */
  predicate CanHappen(s: State, t: Task, e: Event, applied: bool) {
    && Enabled(t.phase, e)
    && (applied ==> (e.Result? || e.ReplayResult?) && !NotApplied(e.reply))
    && (e.Tokens? ==> t.caller < |s.silent.callers| && s.silent.callers[t.caller].run < |s.silent.runs|
                      && s.silent.runs[s.silent.callers[t.caller].run].progress == SF.Done(e.refreshed))
  }

  function AfterServer(s: State, k: nat, e: Event, applied: bool): State
    requires k < |s.tasks| && Enabled(s.tasks[k].phase, e)
  {
    var t := s.tasks[k];
    var phase := BffProxy.Step(t.request, t.refreshToken, t.phase, e);
    var starts := if phase.Attempting? || phase.Replaying? then 1 else 0;
    var joins := phase.AwaitingTokens?;
    var t' := t.(phase := phase, attempts := t.attempts + starts, allAttempts := t.allAttempts + starts,
                 applied := t.applied + (if applied then 1 else 0),
                 caller := if joins then |s.silent.callers| else t.caller);
    s.(tasks := s.tasks[k := t'],
       silent := if joins then SF.Step(Key, s.silent, SF.Call(t.refreshToken)) else s.silent)
  }

  /** Sends a request to the server. */
  function Sent(t: Task, refreshToken: string): Task {
    t.(browser := Waiting, phase := Entered, refreshToken := refreshToken, sent := t.sent + 1, attempts := 0)
  }

  function NewTask(request: Request): Task {
    Task(request, Ready, false, Answered(0), "", 0, 0, 0, 0, 0, None)
  }

  /**
   * The response interceptor. A first 401 of an ordinary request joins the shared refresh, or starts it: the
   * refresh is a request of its own, unless the CSRF cookie is missing. Every other answer ends the request.
   */
  function AfterDeliver(s: State, k: nat, passwordChange: bool, hasCsrfCookie: bool): State
    requires k < |s.tasks| && s.tasks[k].phase.Answered?
  {
    var t := s.tasks[k];
    if passwordChange || t.phase.status != 401 || t.retried || IsCredentialRequest(t.request.path) then
      s.(tasks := s.tasks[k := t.(browser := Finished(Some(t.phase.status)))])
    else
      var starts := "" !in s.access.inFlight;
      var call := |s.access.callers|;
      var tasks := s.tasks[k := t.(browser := AwaitingRefresh(call), retried := true, waitedFor := Some(call))];
      State(if starts && hasCsrfCookie then tasks + [NewTask(REFRESH)] else tasks,
            s.silent,
            SF.Step(SF.SingleKey, s.access, SF.Call("")),
            if starts then s.refresher + [if hasCsrfCookie then Some(|s.tasks|) else None] else s.refresher,
            s.rotated)
  }

  /** How a run of the browser's refresh ends, once its request is finished: a 2xx, or a sibling rotated first. */
  predicate RefreshEnds(s: State, r: nat, rotated: bool) {
    && r < |s.refresher|
    && match s.refresher[r]
       case None => !rotated
       case Some(k) =>
         k < |s.tasks| && s.tasks[k].browser.Finished? &&
         (rotated ==> s.tasks[k].browser.status.Some? && s.tasks[k].browser.status.value >= 400)
  }

  function RefreshResult(s: State, r: nat, rotated: bool): bool
    requires RefreshEnds(s, r, rotated)
  {
    match s.refresher[r]
    case None => false
    case Some(k) => rotated || (s.tasks[k].browser.status.Some? && 200 <= s.tasks[k].browser.status.value < 300)
  }

  /** The run that a waiting request waits for. */
  predicate IsWaiting(s: State, k: nat) {
    k < |s.tasks| && s.tasks[k].browser.AwaitingRefresh? && s.tasks[k].browser.caller < |s.access.callers|
    && s.access.callers[s.tasks[k].browser.caller].run < |s.access.runs|
  }

  function AwaitedRun(s: State, k: nat): nat
    requires IsWaiting(s, k)
  {
    s.access.callers[s.tasks[k].browser.caller].run
  }

  /** One step; a step that cannot happen changes nothing. */
  function Next(s: State, e: Step): State {
    match e
    case Open(request) => s.(tasks := s.tasks + [NewTask(request)])
    case Dispatch(k, token) =>
      if k < |s.tasks| && s.tasks[k].browser == Ready then s.(tasks := s.tasks[k := Sent(s.tasks[k], token)]) else s
    case Server(k, event, applied) =>
      if k < |s.tasks| && CanHappen(s, s.tasks[k], event, applied) then AfterServer(s, k, event, applied) else s
    case SilentFinish(r, refreshed) => s.(silent := SF.Step(Key, s.silent, SF.Finish(r, refreshed)))
    case SilentCleanUp(r) => s.(silent := SF.Step(Key, s.silent, SF.CleanUp(r)))
    case Deliver(k, passwordChange, hasCsrfCookie) =>
      if k < |s.tasks| && s.tasks[k].browser == Waiting && s.tasks[k].phase.Answered?
      then AfterDeliver(s, k, passwordChange, hasCsrfCookie) else s
    case GiveUp(k) =>
      if k < |s.tasks| && s.tasks[k].browser == Waiting
      then s.(tasks := s.tasks[k := s.tasks[k].(browser := Finished(None))]) else s
    case AccessFinish(r, rotated) =>
      if RefreshEnds(s, r, rotated) && r < |s.access.runs| && s.access.runs[r].progress.Running?
      then s.(access := SF.Step(SF.SingleKey, s.access, SF.Finish(r, RefreshResult(s, r, rotated))),
              rotated := if rotated then s.rotated + {r} else s.rotated)
      else s
    case AccessCleanUp(r) => s.(access := SF.Step(SF.SingleKey, s.access, SF.CleanUp(r)))
    case Resume(k, token) =>
      if IsWaiting(s, k) && s.access.runs[AwaitedRun(s, k)].progress.Done? then
        var t := s.tasks[k];
        s.(tasks := s.tasks[k := if s.access.runs[AwaitedRun(s, k)].progress.outcome then Sent(t, token)
                                 else t.(browser := Finished(Some(401)))])
      else s
  }

  function Run(es: seq<Step>): State {
    if es == [] then State([], SF.Start(), SF.Start(), [], {}) else Next(Run(es[..|es| - 1]), es[|es| - 1])
  }

  // ---------- What holds of every request in every run ----------

  /** The most attempts one server request can make. */
  function AttemptLimit(r: Request): nat {
    if !IsSafe(r.httpMethod) then (if r.hasIdempotencyKey then MAX_ATTEMPTS else 1)
    else if Upper(r.httpMethod) == "GET" then MAX_ATTEMPTS + 1
    else MAX_ATTEMPTS
  }

  /** The browser sends once, and once more only after a 401 of an ordinary request. */
  ghost predicate BrowserInv(t: Task) {
    && (t.browser == Ready ==> t.sent == 0 && !t.retried && t.phase == Answered(0) && t.attempts == 0 && t.applied == 0)
    && (t.browser != Ready ==> 1 <= t.sent <= (if t.retried then 2 else 1))
    && (t.browser.AwaitingRefresh? ==> t.retried && t.sent == 1 && t.phase == Answered(401))
    && (t.retried ==> !IsCredentialRequest(t.request.path))
  }

  /** Attempts are counted one by one, and a replay is one more attempt of a GET. */
  ghost predicate AttemptInv(t: Task) {
    && (t.phase.Entered? ==> t.attempts == 0)
    && (t.phase.Attempting? ==> t.attempts == t.phase.n && 1 <= t.phase.n <= MAX_ATTEMPTS
                                && (!IsSafe(t.request.httpMethod) && !t.request.hasIdempotencyKey ==> t.phase.n == 1))
    && (t.phase.AwaitingTokens? ==> Upper(t.request.httpMethod) == "GET" && t.attempts <= MAX_ATTEMPTS)
    && (t.phase.Replaying? ==> Upper(t.request.httpMethod) == "GET")
    && t.attempts <= AttemptLimit(t.request)
    && (t.sent <= 1 ==> t.allAttempts == t.attempts)
    && t.allAttempts <= t.attempts + AttemptLimit(t.request)
  }

  /** A change that was applied is answered, and not with a 401; before that it was not applied. */
  ghost predicate ChangeInv(t: Task) {
    !IsSafe(t.request.httpMethod) ==>
      t.applied <= 1 && (t.applied == 1 ==> t.phase.Answered? && t.phase.status != 401)
  }

  ghost predicate TaskInv(t: Task) { BrowserInv(t) && AttemptInv(t) && ChangeInv(t) }

  /** Waiting requests hold calls to the latches, and each run of the browser's refresh has its entry. */
  ghost predicate LinkInv(s: State) {
    && SF.Inv(Key, s.silent) && SF.Latched(s.silent)
    && SF.Inv(SF.SingleKey, s.access) && SF.Latched(s.access)
    && |s.refresher| == |s.access.runs|
    && (forall r | 0 <= r < |s.refresher| && s.refresher[r].Some? ::
          s.refresher[r].value < |s.tasks| && s.tasks[s.refresher[r].value].request == REFRESH)
    && (forall k | 0 <= k < |s.tasks| :: WaitsOnOwnCall(s, s.tasks[k]))
  }

  ghost predicate WaitsOnOwnCall(s: State, t: Task) {
    && (t.browser.AwaitingRefresh? ==> t.browser.caller < |s.access.callers|)
    && (t.phase.AwaitingTokens? ==> t.caller < |s.silent.callers| && s.silent.callers[t.caller].token == t.refreshToken)
  }

  ghost predicate BaseInv(s: State) {
    LinkInv(s) && forall k | 0 <= k < |s.tasks| :: TaskInv(s.tasks[k])
  }

  /** One step of the server keeps what holds of its request. */
  lemma ServerKeepsTask(s: State, k: nat, e: Event, applied: bool)
    requires k < |s.tasks| && TaskInv(s.tasks[k]) && CanHappen(s, s.tasks[k], e, applied)
    ensures TaskInv(AfterServer(s, k, e, applied).tasks[k])
  {
    hide Classify, Upper, IsCredentialRequest, SF.Step;
    var t := s.tasks[k];
    if e.Result? && e.reply.Threw? {
      FailuresAreNot401(e.reply.error);
    }
    GetIsSafe(t.request.httpMethod);
  }

  lemma GetIsSafe(httpMethod: string)
    ensures Upper(httpMethod) == "GET" ==> IsSafe(httpMethod)
  {
  }

  /** Changing one request keeps the links when the latches and the others stay as they are. */
  lemma OneTaskKeepsLinks(s: State, k: nat, t: Task)
    requires LinkInv(s) && k < |s.tasks| && t.request == s.tasks[k].request && WaitsOnOwnCall(s, t)
    ensures LinkInv(s.(tasks := s.tasks[k := t]))
  {
    var s' := s.(tasks := s.tasks[k := t]);
    forall j | 0 <= j < |s'.tasks| ensures WaitsOnOwnCall(s', s'.tasks[j]) {
      assert WaitsOnOwnCall(s, if j == k then t else s.tasks[j]);
    }
  }

  /** A step of a latch that keeps its callers, or adds one, keeps the links. */
  lemma LatchKeepsLinks(s: State, silent: SF.Latch<bool>, access: SF.Latch<bool>)
    requires LinkInv(s)
    requires SF.Inv(Key, silent) && SF.Latched(silent) && SF.Inv(SF.SingleKey, access) && SF.Latched(access)
    requires s.silent.callers <= silent.callers && s.access.callers <= access.callers
    requires |access.runs| == |s.access.runs|
    ensures LinkInv(s.(silent := silent, access := access))
  {
    var s' := s.(silent := silent, access := access);
    forall j | 0 <= j < |s'.tasks| ensures WaitsOnOwnCall(s', s'.tasks[j]) {
      assert WaitsOnOwnCall(s, s.tasks[j]);
    }
  }

  lemma {:induction false} ServerKeepsInv(s: State, k: nat, e: Event, applied: bool)
    requires BaseInv(s) && k < |s.tasks| && CanHappen(s, s.tasks[k], e, applied)
    ensures BaseInv(AfterServer(s, k, e, applied))
  {
    hide TaskInv, BffProxy.Step, SF.Inv, SF.Latched, SF.Step;
    var s' := AfterServer(s, k, e, applied);
    var t := s.tasks[k];
    ServerKeepsTask(s, k, e, applied);
    if s'.tasks[k].phase.AwaitingTokens? {
      var silent := SF.Step(Key, s.silent, SF.Call(t.refreshToken));
      SF.StepKeepsInv(Key, s.silent, SF.Call(t.refreshToken));
      SF.StepKeepsLatched(Key, s.silent, SF.Call(t.refreshToken));
      CallAddsCaller(Key, s.silent, t.refreshToken);
      LatchKeepsLinks(s, silent, s.access);
      OneTaskKeepsLinks(s.(silent := silent), k, s'.tasks[k]);
    } else {
      ServerKeepsWait(s, k, e, applied);
      OneTaskKeepsLinks(s, k, s'.tasks[k]);
    }
  }

  lemma ServerKeepsWait(s: State, k: nat, e: Event, applied: bool)
    requires k < |s.tasks| && Enabled(s.tasks[k].phase, e) && WaitsOnOwnCall(s, s.tasks[k])
    requires !AfterServer(s, k, e, applied).tasks[k].phase.AwaitingTokens?
    ensures WaitsOnOwnCall(s, AfterServer(s, k, e, applied).tasks[k])
  {
    hide BffProxy.Step;
  }

  lemma CallAddsCaller<T>(key: string -> string, s: SF.Latch<T>, token: string)
    ensures var t := SF.Step(key, s, SF.Call(token));
            s.callers < t.callers && |t.callers| == |s.callers| + 1 && t.callers[|s.callers|].token == token
    ensures var t := SF.Step(key, s, SF.Call(token));
            |t.runs| == |s.runs| + (if key(token) in s.inFlight then 0 else 1)
  {
  }

  /** The interceptor keeps every request's own invariant, the new refresh request's included. */
  lemma DeliverKeepsTasks(s: State, k: nat, passwordChange: bool, hasCsrfCookie: bool)
    requires forall j | 0 <= j < |s.tasks| :: TaskInv(s.tasks[j])
    requires k < |s.tasks| && s.tasks[k].browser == Waiting && s.tasks[k].phase.Answered?
    ensures var s' := AfterDeliver(s, k, passwordChange, hasCsrfCookie);
            forall j | 0 <= j < |s'.tasks| :: TaskInv(s'.tasks[j])
  {
    hide SF.Step, AttemptLimit;
    var t := s.tasks[k];
    var s' := AfterDeliver(s, k, passwordChange, hasCsrfCookie);
    assert TaskInv(t);
    assert TaskInv(NewTask(REFRESH));
    assert TaskInv(s'.tasks[k]);
    forall j | 0 <= j < |s'.tasks| ensures TaskInv(s'.tasks[j]) {
      assert j == k || (j < |s.tasks| && s'.tasks[j] == s.tasks[j]) || s'.tasks[j] == NewTask(REFRESH);
    }
  }

  lemma DeliverKeepsLinks(s: State, k: nat, passwordChange: bool, hasCsrfCookie: bool)
    requires LinkInv(s) && k < |s.tasks| && s.tasks[k].browser == Waiting && s.tasks[k].phase.Answered?
    ensures LinkInv(AfterDeliver(s, k, passwordChange, hasCsrfCookie))
  {
    hide SF.Inv, SF.Latched, SF.Step;
    var t := s.tasks[k];
    var s' := AfterDeliver(s, k, passwordChange, hasCsrfCookie);
    if !(passwordChange || t.phase.status != 401 || t.retried || IsCredentialRequest(t.request.path)) {
      SF.StepKeepsInv(SF.SingleKey, s.access, SF.Call(""));
      SF.StepKeepsLatched(SF.SingleKey, s.access, SF.Call(""));
      CallAddsCaller(SF.SingleKey, s.access, "");
      forall j | 0 <= j < |s'.tasks| ensures WaitsOnOwnCall(s', s'.tasks[j]) {
        if j < |s.tasks| && j != k { assert WaitsOnOwnCall(s, s.tasks[j]); }
      }
    } else {
      assert WaitsOnOwnCall(s, t);
      OneTaskKeepsLinks(s, k, s'.tasks[k]);
    }
  }

  lemma SentKeepsTask(t: Task, refreshToken: string)
    requires TaskInv(t) && (t.browser == Ready || t.browser.AwaitingRefresh?)
    ensures TaskInv(Sent(t, refreshToken))
  {
    hide AttemptLimit, IsCredentialRequest, IsSafe;
  }

  /** Every step keeps the bounds and the links. */
  lemma {:induction false} NextKeepsBase(s: State, e: Step)
    requires BaseInv(s)
    ensures BaseInv(Next(s, e))
  {
    hide TaskInv, SF.Inv, SF.Latched, SF.Step, BffProxy.Step, CanHappen, RefreshResult;
    match e
    case Open(request) => OpenKeepsInv(s, request);
    case Dispatch(k, token) =>
      if k < |s.tasks| && s.tasks[k].browser == Ready { SendKeepsInv(s, k, token); }
    case Server(k, event, applied) =>
      if k < |s.tasks| && CanHappen(s, s.tasks[k], event, applied) { ServerKeepsInv(s, k, event, applied); }
    case SilentFinish(r, refreshed) => SilentKeepsInv(s, SF.Finish(r, refreshed));
    case SilentCleanUp(r) => SilentKeepsInv(s, SF.CleanUp(r));
    case Deliver(k, passwordChange, hasCsrfCookie) =>
      if k < |s.tasks| && s.tasks[k].browser == Waiting && s.tasks[k].phase.Answered? {
        DeliverKeepsTasks(s, k, passwordChange, hasCsrfCookie);
        DeliverKeepsLinks(s, k, passwordChange, hasCsrfCookie);
      }
    case GiveUp(k) =>
      if k < |s.tasks| && s.tasks[k].browser == Waiting { FinishKeepsInv(s, k, None); }
    case AccessFinish(r, rotated) =>
      if RefreshEnds(s, r, rotated) {
        AccessKeepsInv(s, SF.Finish(r, RefreshResult(s, r, rotated)));
        RotatedIsFree(s.(access := SF.Step(SF.SingleKey, s.access, SF.Finish(r, RefreshResult(s, r, rotated)))),
                      s.rotated + {r});
      }
    case AccessCleanUp(r) => AccessKeepsInv(s, SF.CleanUp(r));
    case Resume(k, token) =>
      if IsWaiting(s, k) && s.access.runs[AwaitedRun(s, k)].progress.Done? {
        if s.access.runs[AwaitedRun(s, k)].progress.outcome { SendKeepsInv(s, k, token); }
        else { FinishKeepsInv(s, k, Some(401)); }
      }
  }

  lemma OpenKeepsInv(s: State, request: Request)
    requires BaseInv(s)
    ensures BaseInv(s.(tasks := s.tasks + [NewTask(request)]))
  {
    hide SF.Inv, SF.Latched;
    var s' := s.(tasks := s.tasks + [NewTask(request)]);
    forall j | 0 <= j < |s'.tasks| ensures TaskInv(s'.tasks[j]) && WaitsOnOwnCall(s', s'.tasks[j]) {
      if j < |s.tasks| { assert TaskInv(s.tasks[j]) && WaitsOnOwnCall(s, s.tasks[j]); }
    }
  }

  lemma SendKeepsInv(s: State, k: nat, token: string)
    requires BaseInv(s) && k < |s.tasks| && (s.tasks[k].browser == Ready || s.tasks[k].browser.AwaitingRefresh?)
    ensures BaseInv(s.(tasks := s.tasks[k := Sent(s.tasks[k], token)]))
  {
    hide TaskInv, SF.Inv, SF.Latched;
    SentKeepsTask(s.tasks[k], token);
    OneTaskKeepsLinks(s, k, Sent(s.tasks[k], token));
  }

  lemma FinishKeepsInv(s: State, k: nat, status: Option<nat>)
    requires BaseInv(s) && k < |s.tasks| && (s.tasks[k].browser == Waiting || s.tasks[k].browser.AwaitingRefresh?)
    ensures BaseInv(s.(tasks := s.tasks[k := s.tasks[k].(browser := Finished(status))]))
  {
    hide SF.Inv, SF.Latched, AttemptInv, ChangeInv;
    var t := s.tasks[k].(browser := Finished(status));
    assert TaskInv(s.tasks[k]) && WaitsOnOwnCall(s, s.tasks[k]);
    assert AttemptInv(t) by { FinishKeepsCounts(s.tasks[k], status); }
    assert ChangeInv(t) by { FinishKeepsCounts(s.tasks[k], status); }
    OneTaskKeepsLinks(s, k, t);
  }

  lemma FinishKeepsCounts(t: Task, status: Option<nat>)
    requires AttemptInv(t) && ChangeInv(t)
    ensures AttemptInv(t.(browser := Finished(status))) && ChangeInv(t.(browser := Finished(status)))
  {
  }

  lemma SilentKeepsInv(s: State, e: SF.Event<bool>)
    requires BaseInv(s) && (e.Finish? || e.CleanUp?)
    ensures BaseInv(s.(silent := SF.Step(Key, s.silent, e)))
  {
    hide TaskInv;
    SF.StepKeepsInv(Key, s.silent, e);
    SF.StepKeepsLatched(Key, s.silent, e);
    LatchKeepsLinks(s, SF.Step(Key, s.silent, e), s.access);
  }

  lemma AccessKeepsInv(s: State, e: SF.Event<bool>)
    requires BaseInv(s) && (e.Finish? || e.CleanUp?)
    ensures BaseInv(s.(access := SF.Step(SF.SingleKey, s.access, e)))
  {
    hide TaskInv;
    SF.StepKeepsInv(SF.SingleKey, s.access, e);
    SF.StepKeepsLatched(SF.SingleKey, s.access, e);
    LatchKeepsLinks(s, s.silent, SF.Step(SF.SingleKey, s.access, e));
  }

  lemma RotatedIsFree(s: State, rotated: set<nat>)
    requires BaseInv(s)
    ensures BaseInv(s.(rotated := rotated))
  {
    hide TaskInv, SF.Inv, SF.Latched;
    var s' := s.(rotated := rotated);
    forall j | 0 <= j < |s'.tasks| ensures WaitsOnOwnCall(s', s'.tasks[j]) { assert WaitsOnOwnCall(s, s.tasks[j]); }
  }

  // ---------- What the refresh decides ----------

  /**
   * A request that was marked has waited for a run of the refresh. Once it waits no longer that run has ended: after a
   * success the request was sent again, and otherwise it ended unsent with its 401. Whoever got a status got the
   * server's answer.
   */
  ghost predicate TaskOutcome(s: State, t: Task) {
    && (t.retried <==> t.waitedFor.Some?)
    && (t.browser.AwaitingRefresh? ==> t.waitedFor == Some(t.browser.caller))
    && (t.waitedFor.Some? ==>
          && t.waitedFor.value < |s.access.callers| && s.access.callers[t.waitedFor.value].run < |s.access.runs|
          && (!t.browser.AwaitingRefresh? ==>
                ResumedAs(t, s.access.runs[s.access.callers[t.waitedFor.value].run].progress)))
    && (t.browser.Finished? && t.browser.status.Some? ==> t.phase == Answered(t.browser.status.value))
  }

  predicate ResumedAs(t: Task, progress: SF.Progress<bool>) {
    && progress.Done?
    && (progress.outcome ==> t.sent == 2)
    && (!progress.outcome ==> t.sent == 1 && t.browser == Finished(Some(401)))
  }

  /**
   * A run of the refresh that has ended was a success exactly when its request got a 2xx answer, or an error that
   * told of a sibling's rotation. Without a request it is none.
   */
  ghost predicate RunOutcome(s: State, r: nat)
    requires r < |s.access.runs|
  {
    r < |s.refresher| &&
    match s.access.runs[r].progress
    case Running => r !in s.rotated
    case Finishing(success) => EndedAs(s, r, success)
    case Done(success) => EndedAs(s, r, success)
  }

  predicate EndedAs(s: State, r: nat, success: bool)
    requires r < |s.refresher|
  {
    match s.refresher[r]
    case None => !success && r !in s.rotated
    case Some(j) =>
      && j < |s.tasks| && s.tasks[j].browser.Finished?
      && match s.tasks[j].browser.status
         case None => !success && r !in s.rotated
         case Some(status) => (success <==> 200 <= status < 300 || r in s.rotated) && (r in s.rotated ==> status >= 400)
  }

  ghost predicate OutcomeInv(s: State) {
    && (forall k | 0 <= k < |s.tasks| :: TaskOutcome(s, s.tasks[k]))
    && (forall r | 0 <= r < |s.access.runs| :: RunOutcome(s, r))
    && (forall r | r in s.rotated :: r < |s.access.runs|)
  }

  ghost predicate Inv(s: State) { BaseInv(s) && OutcomeInv(s) }

  /** A request that the browser has finished stays as it ended. */
  lemma FinishedStays(s: State, e: Step, j: nat)
    requires j < |s.tasks| && s.tasks[j].browser.Finished?
    ensures j < |Next(s, e).tasks| && Next(s, e).tasks[j].browser == s.tasks[j].browser
  {
    hide CanHappen, SF.Step, BffProxy.Step, RefreshEnds, RefreshResult, IsCredentialRequest;
  }

  /** What the step makes of a run of the browser's refresh. */
  predicate RunGoesOn(s: State, e: Step, r: nat)
    requires r < |s.access.runs|
  {
    var s' := Next(s, e);
    && r < |s'.access.runs| && r < |s.refresher| && r < |s'.refresher| && s'.refresher[r] == s.refresher[r]
    && match s.access.runs[r].progress
       case Done(success) => s'.access.runs[r].progress == SF.Done(success) && (r in s'.rotated <==> r in s.rotated)
       case Finishing(success) =>
         && s'.access.runs[r].progress in {SF.Finishing(success), SF.Done(success)}
         && (r in s'.rotated <==> r in s.rotated)
       case Running =>
         if e.AccessFinish? && e.run == r && RefreshEnds(s, r, e.rotated)
         then s'.access.runs[r].progress == SF.Finishing(RefreshResult(s, r, e.rotated))
              && (r in s'.rotated <==> e.rotated || r in s.rotated)
         else s'.access.runs[r].progress.Running? && (r in s'.rotated <==> r in s.rotated)
  }

  lemma RunsGoOn(s: State, e: Step, r: nat)
    requires |s.refresher| == |s.access.runs| && r < |s.access.runs|
    ensures RunGoesOn(s, e, r)
  {
    hide CanHappen, RefreshEnds, RefreshResult, BffProxy.Step, IsCredentialRequest;
  }

  /** A new run has just begun. */
  lemma NewRunIsRunning(s: State, e: Step, r: nat)
    requires |s.refresher| == |s.access.runs| && |s.access.runs| <= r < |Next(s, e).access.runs|
    ensures var s' := Next(s, e);
            r < |s'.refresher| && s'.access.runs[r].progress.Running? && s'.rotated == s.rotated
  {
    hide CanHappen, RefreshEnds, RefreshResult, BffProxy.Step, IsCredentialRequest;
  }

  lemma EndStays(s: State, s': State, r: nat, success: bool)
    requires r < |s.refresher| && r < |s'.refresher| && s'.refresher[r] == s.refresher[r]
    requires r in s'.rotated <==> r in s.rotated
    requires s.refresher[r].Some? && s.refresher[r].value < |s.tasks|
             && s.tasks[s.refresher[r].value].browser.Finished? ==>
               var j := s.refresher[r].value; j < |s'.tasks| && s'.tasks[j].browser == s.tasks[j].browser
    requires EndedAs(s, r, success)
    ensures EndedAs(s', r, success)
  {
  }

  lemma EndIsTold(s: State, s': State, r: nat, rotated: bool)
    requires RefreshEnds(s, r, rotated) && r < |s'.refresher| && s'.refresher[r] == s.refresher[r]
    requires r !in s.rotated && (r in s'.rotated <==> rotated)
    requires s.refresher[r].Some? ==>
               var j := s.refresher[r].value; j < |s'.tasks| && s'.tasks[j].browser == s.tasks[j].browser
    ensures EndedAs(s', r, RefreshResult(s, r, rotated))
  {
  }

  lemma RefresherStays(s: State, e: Step, r: nat)
    requires r < |s.refresher| && s.refresher[r].Some?
    ensures var j := s.refresher[r].value; j < |s.tasks| && s.tasks[j].browser.Finished? ==>
              j < |Next(s, e).tasks| && Next(s, e).tasks[j].browser == s.tasks[j].browser
  {
    var j := s.refresher[r].value;
    if j < |s.tasks| && s.tasks[j].browser.Finished? { FinishedStays(s, e, j); }
  }

  lemma RunKeepsOutcome(s: State, e: Step, r: nat)
    requires Inv(s) && r < |Next(s, e).access.runs|
    ensures RunOutcome(Next(s, e), r)
  {
    var s' := Next(s, e);
    if r < |s.access.runs| {
      RunsGoOn(s, e, r);
      assert RunOutcome(s, r);
      if s.refresher[r].Some? { RefresherStays(s, e, r); }
      hide Inv, Next, EndedAs, RefreshEnds, RefreshResult;
      match s.access.runs[r].progress
      case Done(success) => EndStays(s, s', r, success);
      case Finishing(success) => EndStays(s, s', r, success);
      case Running =>
        if e.AccessFinish? && e.run == r && RefreshEnds(s, r, e.rotated) {
          RefresherIsFinished(s, r, e.rotated);
          EndIsTold(s, s', r, e.rotated);
        }
    } else {
      NewRunIsRunning(s, e, r);
      assert r !in s.rotated;
      hide Next;
    }
  }

  lemma RefresherIsFinished(s: State, r: nat, rotated: bool)
    requires RefreshEnds(s, r, rotated)
    ensures s.refresher[r].Some? ==>
              s.refresher[r].value < |s.tasks| && s.tasks[s.refresher[r].value].browser.Finished?
  {
  }

  lemma CallersStay(s: State, e: Step)
    ensures s.access.callers <= Next(s, e).access.callers
  {
    hide CanHappen, RefreshEnds, RefreshResult, BffProxy.Step, IsCredentialRequest;
  }

  lemma {:induction false} TaskKeepsOutcome(s: State, e: Step, k: nat)
    requires Inv(s) && k < |Next(s, e).tasks|
    ensures TaskOutcome(Next(s, e), Next(s, e).tasks[k])
  {
    CallersStay(s, e);
    if k < |s.tasks| {
      var t := s.tasks[k];
      assert TaskOutcome(s, t) && TaskInv(t);
      if t.waitedFor.Some? { RunsGoOn(s, e, s.access.callers[t.waitedFor.value].run); }
      if e.Deliver? {
        DeliverKeepsOutcome(s, e, k);
      } else if e.Resume? {
        ResumeKeepsOutcome(s, e, k);
      } else if e.Server? {
        ServerKeepsOutcome(s, e, k);
      } else {
        OtherKeepsOutcome(s, e, k);
      }
    } else {
      hide Inv, CanHappen, RefreshEnds, RefreshResult, SF.Step, BffProxy.Step, IsCredentialRequest;
    }
  }

  lemma DeliverKeepsOutcome(s: State, e: Step, k: nat)
    requires Inv(s) && e.Deliver? && k < |s.tasks|
    ensures TaskOutcome(Next(s, e), Next(s, e).tasks[k])
  {
    var t := s.tasks[k];
    assert TaskOutcome(s, t) && TaskInv(t);
    if t.waitedFor.Some? { RunsGoOn(s, e, s.access.callers[t.waitedFor.value].run); }
    CallersStay(s, e);
    if e.task == k && t.browser == Waiting && t.phase.Answered? {
      CallHoldsRun(s, e);
      hide Inv, BaseInv, IsCredentialRequest, SF.Step, TaskInv;
    } else {
      OthersAreDelivered(s, e, k);
      hide Inv, BaseInv, Next, TaskInv;
    }
  }

  lemma OthersAreDelivered(s: State, e: Step, k: nat)
    requires e.Deliver? && k < |s.tasks|
    requires !(e.task == k && s.tasks[k].browser == Waiting && s.tasks[k].phase.Answered?)
    ensures Next(s, e).tasks[k] == s.tasks[k]
  {
    hide IsCredentialRequest, SF.Step;
  }

  /** A call to the browser's latch is promised a run that is there. */
  lemma CallHoldsRun(s: State, e: Step)
    requires Inv(s) && e.Deliver?
    ensures var access := SF.Step(SF.SingleKey, s.access, SF.Call(""));
            |access.callers| == |s.access.callers| + 1 && access.callers[|s.access.callers|].run < |access.runs|
  {
    SF.StepKeepsInv(SF.SingleKey, s.access, SF.Call(""));
  }

  lemma ResumeKeepsOutcome(s: State, e: Step, k: nat)
    requires Inv(s) && e.Resume? && k < |s.tasks|
    ensures TaskOutcome(Next(s, e), Next(s, e).tasks[k])
  {
    assert TaskOutcome(s, s.tasks[k]) && TaskInv(s.tasks[k]);
    hide IsCredentialRequest, AttemptInv, ChangeInv, LinkInv, OutcomeInv;
  }

  lemma ServerKeepsOutcome(s: State, e: Step, k: nat)
    requires Inv(s) && e.Server? && k < |s.tasks|
    ensures TaskOutcome(Next(s, e), Next(s, e).tasks[k])
  {
    assert TaskOutcome(s, s.tasks[k]);
    hide Inv, TaskInv, NotApplied, SF.Step, BffProxy.Step, IsCredentialRequest;
  }

  lemma OtherKeepsOutcome(s: State, e: Step, k: nat)
    requires Inv(s) && !e.Deliver? && !e.Resume? && !e.Server? && k < |s.tasks|
    ensures TaskOutcome(Next(s, e), Next(s, e).tasks[k])
  {
    var t := s.tasks[k];
    assert TaskOutcome(s, t) && TaskInv(t);
    if t.waitedFor.Some? { RunsGoOn(s, e, s.access.callers[t.waitedFor.value].run); }
    CallersStay(s, e);
    hide Inv, CanHappen, RefreshEnds, RefreshResult, SF.Step, BffProxy.Step, IsCredentialRequest;
  }

  lemma {:induction false} NextKeepsOutcome(s: State, e: Step)
    requires Inv(s)
    ensures OutcomeInv(Next(s, e))
  {
    hide Inv, Next, TaskOutcome, RunOutcome;
    forall k | 0 <= k < |Next(s, e).tasks| ensures TaskOutcome(Next(s, e), Next(s, e).tasks[k]) {
      TaskKeepsOutcome(s, e, k);
    }
    forall r | 0 <= r < |Next(s, e).access.runs| ensures RunOutcome(Next(s, e), r) { RunKeepsOutcome(s, e, r); }
    RotatedAreRuns(s, e);
  }

  lemma RotatedAreRuns(s: State, e: Step)
    requires Inv(s)
    ensures forall r | r in Next(s, e).rotated :: r < |Next(s, e).access.runs|
  {
    hide CanHappen, RefreshResult, BffProxy.Step, IsCredentialRequest, SF.Inv, SF.Latched, TaskInv;
  }

  /** Every step keeps the invariant: bounds, links, and what the refresh decides. */
  lemma {:induction false} NextKeepsInv(s: State, e: Step)
    requires Inv(s)
    ensures Inv(Next(s, e))
  {
    NextKeepsBase(s, e);
    NextKeepsOutcome(s, e);
  }

  lemma {:induction false} InvHolds(es: seq<Step>)
    ensures Inv(Run(es))
  {
    if es != [] {
      InvHolds(es[..|es| - 1]);
      NextKeepsInv(Run(es[..|es| - 1]), es[|es| - 1]);
    }
  }

  // ---------- The main results ----------

  /**
   * In every interleaving of any number of requests, a request that changes something is applied at most once,
   * provided a refused connection and a 401 mean that it was not applied.
   */
  lemma ChangeAppliedAtMostOnce(es: seq<Step>, k: nat)
    requires k < |Run(es).tasks| && !IsSafe(Run(es).tasks[k].request.httpMethod)
    ensures Run(es).tasks[k].applied <= 1
  {
    InvHolds(es);
    assert TaskInv(Run(es).tasks[k]);
  }

  /**
   * The browser sends a request at most twice, and a request with credentials once. One server request asks
   * the API at most three times, four times for a GET; without an idempotency key a change is asked for once.
   */
  lemma RequestsAreBounded(es: seq<Step>, k: nat)
    requires k < |Run(es).tasks|
    ensures var t := Run(es).tasks[k];
            var limit := if Upper(t.request.httpMethod) == "GET" then 4
                         else if Upper(t.request.httpMethod) in {"HEAD", "OPTIONS"} then 3
                         else if t.request.hasIdempotencyKey then 3 else 1;
            && t.attempts <= limit && t.allAttempts <= t.sent * limit
            && t.sent <= (if t.request.path in {"auth/login", "auth/register", "auth/forgot-password",
                                                "auth/reset-password", "auth/refresh"} then 1 else 2)
  {
    InvHolds(es);
    hide LinkInv, Run, ChangeInv, OutcomeInv;
    var t := Run(es).tasks[k];
    assert TaskInv(t);
    var limit := AttemptLimit(t.request);
    LimitIs(t.request);
    assert 0 * limit == 0 && 1 * limit == limit && 2 * limit == limit + limit;
  }

  lemma LimitIs(r: Request)
    ensures AttemptLimit(r) == (if Upper(r.httpMethod) == "GET" then 4
                                else if Upper(r.httpMethod) in {"HEAD", "OPTIONS"} || r.hasIdempotencyKey then 3 else 1)
  {
  }

  /**
   * Each latch has at most one run in flight for one key: the browser one shared refresh, the server one refresh of
   * its own per refresh token. What the server forwards for the browser goes past its latch.
   */
  lemma OneRefreshAtATime(es: seq<Step>, q: nat, r: nat)
    ensures SF.InFlight(Run(es).access, q) && SF.InFlight(Run(es).access, r) ==> q == r
    ensures (SF.InFlight(Run(es).silent, q) && SF.InFlight(Run(es).silent, r)
             && Run(es).silent.runs[q].key == Run(es).silent.runs[r].key) ==> q == r
  {
    InvHolds(es);
    SingleKeyRuns(es);
  }

  lemma {:induction false} SingleKeyRuns(es: seq<Step>)
    ensures forall r | 0 <= r < |Run(es).access.runs| :: Run(es).access.runs[r].key == ""
  {
    if es != [] {
      hide Inv, CanHappen, AfterServer, RefreshEnds, RefreshResult, IsCredentialRequest;
      SingleKeyRuns(es[..|es| - 1]);
    }
  }

  /**
   * A waiting request waits for a run of the refresh whose own request, if it sent one, is POST /auth/refresh,
   * sent at most once, asked for at the API at most once, and never itself waiting. So no refresh waits for
   * a refresh.
   */
  lemma {:induction false} RefreshNeverWaits(es: seq<Step>, k: nat)
    requires k < |Run(es).tasks| && Run(es).tasks[k].browser.AwaitingRefresh?
    ensures var s := Run(es);
            IsWaiting(s, k) && AwaitedRun(s, k) < |s.refresher| &&
            match s.refresher[AwaitedRun(s, k)]
            case None => true
            case Some(j) => j < |s.tasks| && s.tasks[j].request == REFRESH && !s.tasks[j].browser.AwaitingRefresh?
                            && s.tasks[j].sent <= 1 && s.tasks[j].allAttempts <= 1
  {
    InvHolds(es);
    var s := Run(es);
    assert WaitsOnOwnCall(s, s.tasks[k]);
    match s.refresher[AwaitedRun(s, k)]
    case None =>
    case Some(j) =>
      RequestsAreBounded(es, j);
      RefreshIsCredential();
      assert TaskInv(s.tasks[j]);
  }

  lemma RefreshIsCredential()
    ensures IsCredentialRequest(REFRESH.path) && AttemptLimit(REFRESH) == 1
  {
    assert Upper("POST") == "POST";
  }

  /** The tokens that a server request waits for are those of its own refresh token. */
  lemma {:induction false} TokensAreOwn(es: seq<Step>, k: nat)
    requires k < |Run(es).tasks| && Run(es).tasks[k].phase.AwaitingTokens?
    ensures var s := Run(es); var t := s.tasks[k];
            t.caller < |s.silent.callers| && s.silent.callers[t.caller].run < |s.silent.runs|
            && s.silent.runs[s.silent.callers[t.caller].run].key == t.refreshToken
  {
    InvHolds(es);
    assert WaitsOnOwnCall(Run(es), Run(es).tasks[k]);
  }

  // ---------- What an answer and a refresh lead to ----------

  /** The run of the refresh that a marked request waited for. */
  function WaitedRun(s: State, t: Task): Option<SF.Progress<bool>> {
    if t.waitedFor.Some? && t.waitedFor.value < |s.access.callers|
       && s.access.callers[t.waitedFor.value].run < |s.access.runs|
    then Some(s.access.runs[s.access.callers[t.waitedFor.value].run].progress) else None
  }

  /**
   * In every run, a request is sent a second time exactly when it was marked and the refresh it waited for was a
   * success, and it ends unsent with its 401 exactly when that refresh was none. Every other status that the browser
   * gets is the server's answer.
   */
  lemma {:induction false} RetriedAsRefreshed(es: seq<Step>, k: nat)
    requires k < |Run(es).tasks|
    ensures var t := Run(es).tasks[k]; var waited := WaitedRun(Run(es), t);
            && (t.retried <==> waited.Some?)
            && (t.retried && !t.browser.AwaitingRefresh? ==> waited.value.Done?)
            && (t.sent == 2 <==> t.retried && !t.browser.AwaitingRefresh? && waited.value == SF.Done(true))
            && (t.retried && t.sent == 1 && t.browser == Finished(Some(401))
                <==> t.retried && !t.browser.AwaitingRefresh? && waited.value == SF.Done(false))
            && (t.browser.Finished? && t.browser.status.Some? ==> t.phase == Answered(t.browser.status.value))
  {
    InvHolds(es);
    var s := Run(es);
    assert TaskOutcome(s, s.tasks[k]) && TaskInv(s.tasks[k]);
    hide Inv, Run;
  }

  /**
   * In every run, a refresh that has ended was a success exactly when its POST /auth/refresh was answered with a 2xx,
   * or with an error that told of a sibling's rotation; without a CSRF cookie nothing was sent and it was none.
   */
  lemma {:induction false} RefreshSucceedsIff(es: seq<Step>, r: nat, success: bool)
    requires r < |Run(es).access.runs| && Run(es).access.runs[r].progress in {SF.Finishing(success), SF.Done(success)}
    ensures var s := Run(es);
            r < |s.refresher| &&
            (success <==> s.refresher[r].Some? && s.refresher[r].value < |s.tasks|
                          && var t := s.tasks[s.refresher[r].value];
                             t.request == REFRESH && t.browser.Finished? && t.browser.status.Some? && t.phase.Answered?
                             && (200 <= t.phase.status < 300 || (t.phase.status >= 400 && r in s.rotated)))
  {
    InvHolds(es);
    var s := Run(es);
    assert RunOutcome(s, r);
    if s.refresher[r].Some? && s.refresher[r].value < |s.tasks| {
      assert TaskOutcome(s, s.tasks[s.refresher[r].value]);
    }
    hide Run;
  }

  /** A running refresh whose request is finished ends as told by the status, or by the sibling's rotation. */
  lemma EndDecides(s: State, r: nat, rotated: bool)
    requires RefreshEnds(s, r, rotated) && r < |s.access.runs| && s.access.runs[r].progress.Running?
    ensures var ok := s.refresher[r].Some? && var status := s.tasks[s.refresher[r].value].browser.status;
                      status.Some? && 200 <= status.value < 300;
            Next(s, AccessFinish(r, rotated)).access.runs[r].progress == SF.Finishing(rotated || ok)
  {
  }

  /**
   * An answer makes the request wait exactly when it is the first 401 of a request without credentials that asks for
   * no password change. Any other answer ends it with the status of the answer.
   */
  lemma AnswerDecides(s: State, k: nat, passwordChange: bool, hasCsrfCookie: bool)
    requires k < |s.tasks| && s.tasks[k].browser == Waiting && s.tasks[k].phase.Answered?
    ensures var t, t' := s.tasks[k], Next(s, Deliver(k, passwordChange, hasCsrfCookie)).tasks[k];
            var waits := t.phase.status == 401 && !t.retried && !passwordChange
                         && t.request.path !in {"auth/login", "auth/register", "auth/forgot-password",
                                                "auth/reset-password", "auth/refresh"};
            && (waits <==> t'.browser.AwaitingRefresh?)
            && (!waits <==> t'.browser == Finished(Some(t.phase.status)))
  {
  }

  /**
   * A request that comes to wait joins the shared refresh that is in flight. Without one it starts it: with a CSRF
   * cookie by a new POST /auth/refresh that is ready to be sent, and else without any request.
   */
  lemma WaitingStartsRefresh(s: State, k: nat, hasCsrfCookie: bool)
    requires Inv(s) && k < |s.tasks| && s.tasks[k].browser == Waiting && s.tasks[k].phase == Answered(401)
    requires Next(s, Deliver(k, false, hasCsrfCookie)).tasks[k].browser.AwaitingRefresh?
    ensures var t, n, r := Next(s, Deliver(k, false, hasCsrfCookie)), |s.tasks|, |s.refresher|;
            IsWaiting(t, k) &&
            if "" in s.access.inFlight
            then |t.tasks| == n && t.refresher == s.refresher && AwaitedRun(t, k) == s.access.inFlight[""]
            else && AwaitedRun(t, k) == r && t.access.runs[r].progress.Running?
                 && t.refresher == s.refresher + [if hasCsrfCookie then Some(n) else None]
                 && |t.tasks| == n + (if hasCsrfCookie then 1 else 0)
                 && (hasCsrfCookie ==> t.tasks[n].request == Request("POST", "auth/refresh", false)
                                       && t.tasks[n].browser == Ready)
  {
    assert |s.refresher| == |s.access.runs|;
    assert "" in s.access.inFlight ==> s.access.inFlight[""] < |s.access.runs|;
    hide Inv, IsCredentialRequest;
  }

  // ---------- Waiting comes to an end ----------

  function After(s: State, es: seq<Step>): State
    decreases es
  {
    if es == [] then s else After(Next(s, es[0]), es[1..])
  }

  predicate HasStopped(s: State, k: nat) { k < |s.tasks| && !s.tasks[k].browser.AwaitingRefresh? }

  /** How far the request of a refresh is from its end. */
  function Stage(b: Browser): nat { if b.Finished? then 0 else if b == Waiting then 1 else 2 }

  function RefresherStage(s: State, r: nat): nat {
    if r < |s.refresher| && s.refresher[r].Some? && s.refresher[r].value < |s.tasks|
    then Stage(s.tasks[s.refresher[r].value].browser) else 0
  }

  /** How many steps of its own refresh a waiting request is away from going on. */
  function Rank(s: State, k: nat): (rank: nat)
    requires IsWaiting(s, k)
    ensures rank <= 5
  {
    var r := AwaitedRun(s, k);
    match s.access.runs[r].progress
    case Done(_) => 1
    case Finishing(_) => 2
    case Running => 3 + RefresherStage(s, r)
  }

  /**
   * The step that is next in the refresh that k waits for: the refresh request is sent; its answer arrives or is
   * given up; the run ends; the latch is cleaned up; k goes on.
   */
  predicate IsOwnStep(s: State, k: nat, e: Step)
    requires IsWaiting(s, k)
  {
    var r := AwaitedRun(s, k);
    match s.access.runs[r].progress
    case Done(_) => e.Resume? && e.task == k
    case Finishing(_) => e == AccessCleanUp(r)
    case Running =>
      if RefresherStage(s, r) == 0 then e.AccessFinish? && e.run == r && RefreshEnds(s, r, e.rotated) else
        var j := s.refresher[r].value;
        if RefresherStage(s, r) == 1 then e == GiveUp(j) || (e.Deliver? && e.task == j && s.tasks[j].phase.Answered?)
        else e.Dispatch? && e.task == j
  }

  /** One that is always possible. */
  function OwnStep(s: State, k: nat): Step
    requires IsWaiting(s, k)
  {
    var r := AwaitedRun(s, k);
    match s.access.runs[r].progress
    case Done(_) => Resume(k, "")
    case Finishing(_) => AccessCleanUp(r)
    case Running =>
      if RefresherStage(s, r) == 0 then AccessFinish(r, false)
      else if RefresherStage(s, r) == 1 then GiveUp(s.refresher[r].value)
      else Dispatch(s.refresher[r].value, "")
  }

  /** In every state of every run, what a waiting request holds on to is there. */
  lemma WaitingIsLinked(s: State, k: nat)
    requires Inv(s) && k < |s.tasks| && s.tasks[k].browser.AwaitingRefresh?
    ensures IsWaiting(s, k) && AwaitedRun(s, k) < |s.refresher|
    ensures match s.refresher[AwaitedRun(s, k)]
            case None => true
            case Some(j) => j < |s.tasks| && !s.tasks[j].browser.AwaitingRefresh? && s.tasks[j].request == REFRESH
  {
    assert WaitsOnOwnCall(s, s.tasks[k]);
    match s.refresher[AwaitedRun(s, k)]
    case None =>
    case Some(j) =>
      RefreshIsCredential();
      assert TaskInv(s.tasks[j]);
  }

  lemma OwnStepIsOwn(s: State, k: nat)
    requires Inv(s) && k < |s.tasks| && s.tasks[k].browser.AwaitingRefresh?
    ensures IsWaiting(s, k) && IsOwnStep(s, k, OwnStep(s, k))
  {
    WaitingIsLinked(s, k);
    hide Inv;
  }

  /** No step takes the request of a refresh back. */
  lemma StageFalls(s: State, e: Step, j: nat)
    requires Inv(s) && j < |s.tasks| && s.tasks[j].request == REFRESH
    ensures var s' := Next(s, e);
            j < |s'.tasks| && Stage(s'.tasks[j].browser) <= Stage(s.tasks[j].browser)
  {
    assert TaskInv(s.tasks[j]);
    RefreshIsCredential();
    hide Inv, IsCredentialRequest, CanHappen, SF.Step, BffProxy.Step, RefreshEnds, RefreshResult;
  }

  /** No step takes a run of the refresh back, nor the promise to a waiting request. */
  lemma RunMovesOn(s: State, e: Step, r: nat)
    requires |s.refresher| == |s.access.runs| && r < |s.access.runs|
    ensures var s' := Next(s, e);
            && r < |s'.access.runs| && r < |s'.refresher| && s'.refresher[r] == s.refresher[r]
            && s.access.callers <= s'.access.callers
            && (s.access.runs[r].progress.Done? ==> s'.access.runs[r].progress.Done?)
            && (s.access.runs[r].progress.Finishing? ==> !s'.access.runs[r].progress.Running?)
  {
    hide CanHappen, RefreshEnds, RefreshResult, BffProxy.Step, IsCredentialRequest;
  }

  /** Whatever happens, a waiting request stops waiting or waits on for the same run, no farther from its end. */
  lemma WaitingMovesOn(s: State, e: Step, k: nat)
    requires Inv(s) && k < |s.tasks| && s.tasks[k].browser.AwaitingRefresh?
    ensures IsWaiting(s, k)
    ensures var s' := Next(s, e);
            || HasStopped(s', k)
            || (IsWaiting(s', k) && AwaitedRun(s', k) == AwaitedRun(s, k) && Rank(s', k) <= Rank(s, k))
  {
    WaitingIsLinked(s, k);
    var r := AwaitedRun(s, k);
    RunMovesOn(s, e, r);
    if s.refresher[r].Some? { StageFalls(s, e, s.refresher[r].value); }
    CallStays(s, e, k);
    hide Inv, Next;
  }

  lemma CallStays(s: State, e: Step, k: nat)
    requires Inv(s) && k < |s.tasks| && s.tasks[k].browser.AwaitingRefresh?
    ensures HasStopped(Next(s, e), k) || (k < |Next(s, e).tasks| && Next(s, e).tasks[k].browser == s.tasks[k].browser)
  {
    hide Inv, IsCredentialRequest, CanHappen, SF.Step, BffProxy.Step, RefreshEnds, RefreshResult;
  }

  /** Every step of its own refresh brings it closer. */
  lemma OwnStepLowersRank(s: State, e: Step, k: nat)
    requires Inv(s) && k < |s.tasks| && s.tasks[k].browser.AwaitingRefresh?
    requires IsWaiting(s, k) && IsOwnStep(s, k, e)
    ensures var s' := Next(s, e); HasStopped(s', k) || (IsWaiting(s', k) && Rank(s', k) < Rank(s, k))
  {
    WaitingIsLinked(s, k);
    WaitingMovesOn(s, e, k);
    var r := AwaitedRun(s, k);
    if s.access.runs[r].progress.Running? && RefresherStage(s, r) > 0 {
      OwnStepLowersStage(s, e, k);
      hide Inv, Next;
    } else {
      OwnStepMovesRun(s, e, k);
      hide Inv, Next, IsOwnStep;
    }
  }

  lemma OwnStepMovesRun(s: State, e: Step, k: nat)
    requires IsWaiting(s, k) && IsOwnStep(s, k, e)
    requires s.access.runs[AwaitedRun(s, k)].progress.Running? ==> RefresherStage(s, AwaitedRun(s, k)) == 0
    ensures var p, runs := s.access.runs[AwaitedRun(s, k)].progress, Next(s, e).access.runs;
            && (p.Done? ==> HasStopped(Next(s, e), k))
            && (p.Finishing? ==> AwaitedRun(s, k) < |runs| && runs[AwaitedRun(s, k)].progress.Done?)
            && (p.Running? ==> AwaitedRun(s, k) < |runs| && runs[AwaitedRun(s, k)].progress.Finishing?)
  {
    hide IsCredentialRequest, CanHappen, AfterServer, AfterDeliver, RefreshResult, RefresherStage;
  }

  lemma OwnStepLowersStage(s: State, e: Step, k: nat)
    requires Inv(s) && IsWaiting(s, k) && IsOwnStep(s, k, e) && AwaitedRun(s, k) < |s.refresher|
    requires s.access.runs[AwaitedRun(s, k)].progress.Running? && RefresherStage(s, AwaitedRun(s, k)) > 0
    requires s.tasks[s.refresher[AwaitedRun(s, k)].value].request == REFRESH
    requires !s.tasks[s.refresher[AwaitedRun(s, k)].value].browser.AwaitingRefresh?
    ensures var j := s.refresher[AwaitedRun(s, k)].value; var s' := Next(s, e);
            j < |s'.tasks| && Stage(s'.tasks[j].browser) < Stage(s.tasks[j].browser)
  {
    RefreshIsCredential();
    hide Inv, IsCredentialRequest, RefreshEnds, RefreshResult, SF.Step;
  }

  /** The steps of its own refresh among the given ones, up to the end of waiting. */
  function OwnSteps(s: State, k: nat, es: seq<Step>): nat
    decreases es
  {
    if es == [] || !IsWaiting(s, k) then 0
    else (if IsOwnStep(s, k, es[0]) then 1 else 0) + OwnSteps(Next(s, es[0]), k, es[1..])
  }

  predicate WaitsThroughout(s: State, k: nat, es: seq<Step>)
    decreases es
  {
    IsWaiting(s, k) && (es == [] || WaitsThroughout(Next(s, es[0]), k, es[1..]))
  }

  lemma {:induction false} OwnStepsBelowRank(s: State, k: nat, es: seq<Step>)
    requires Inv(s) && WaitsThroughout(s, k, es)
    ensures OwnSteps(s, k, es) < Rank(s, k)
    decreases es
  {
    if es != [] {
      NextKeepsInv(s, es[0]);
      WaitingMovesOn(s, es[0], k);
      if IsOwnStep(s, k, es[0]) { OwnStepLowersRank(s, es[0], k); }
      hide Inv, Next, Rank, IsOwnStep;
      OwnStepsBelowRank(Next(s, es[0]), k, es[1..]);
    }
  }

  /**
   * Whatever other requests do in between: a request that still waits has seen at most four steps of its own refresh,
   * and a fifth is possible. So it goes on or ends in every run that takes these steps at all.
   */
  lemma WaitingIsBounded(run: seq<Step>, k: nat, es: seq<Step>)
    requires WaitsThroughout(Run(run), k, es)
    ensures OwnSteps(Run(run), k, es) <= 4
    ensures var s := After(Run(run), es);
            IsWaiting(s, k) && IsOwnStep(s, k, OwnStep(s, k)) && Next(s, OwnStep(s, k)) != s
  {
    InvHolds(run);
    OwnStepsBelowRank(Run(run), k, es);
    hide Run, Inv, Next;
    StillWaiting(Run(run), k, es);
    var s := After(Run(run), es);
    OwnStepIsOwn(s, k);
    OwnStepLowersRank(s, OwnStep(s, k), k);
  }

  lemma {:induction false} StillWaiting(s: State, k: nat, es: seq<Step>)
    requires Inv(s) && WaitsThroughout(s, k, es)
    ensures Inv(After(s, es)) && IsWaiting(After(s, es), k)
    decreases es
  {
    if es != [] {
      NextKeepsInv(s, es[0]);
      StillWaiting(Next(s, es[0]), k, es[1..]);
    }
  }

  lemma {:induction false} OwnStepsStop(s: State, k: nat) returns (es: seq<Step>)
    requires Inv(s) && IsWaiting(s, k)
    ensures HasStopped(After(s, es), k) && OwnSteps(s, k, es) == |es| <= Rank(s, k)
    decreases Rank(s, k)
  {
    OwnStepIsOwn(s, k);
    var e := OwnStep(s, k);
    var next := Next(s, e);
    NextKeepsInv(s, e);
    OwnStepLowersRank(s, e, k);
    hide Inv, Next, IsOwnStep, OwnStep, Rank;
    var rest: seq<Step> := [];
    if !HasStopped(next, k) { rest := OwnStepsStop(next, k); }
    es := [e] + rest;
    assert es[1..] == rest;
  }

  /**
   * From every state of every run, a request that waits for the refresh goes on or ends by at most five steps of
   * its own refresh and by no others.
   */
  lemma WaitingCanStop(run: seq<Step>, k: nat) returns (es: seq<Step>)
    requires k < |Run(run).tasks| && Run(run).tasks[k].browser.AwaitingRefresh?
    ensures HasStopped(After(Run(run), es), k)
    ensures |es| <= 5 && OwnSteps(Run(run), k, es) == |es|
    ensures var s := After(Run(run), es); var waited := WaitedRun(s, s.tasks[k]);
            waited.Some? && ResumedAs(s.tasks[k], waited.value)
  {
    InvHolds(run);
    WaitingIsLinked(Run(run), k);
    assert TaskOutcome(Run(run), Run(run).tasks[k]);
    es := OwnStepsStop(Run(run), k);
    hide Run, Inv;
    StaysMarked(Run(run), es, k);
    var s := After(Run(run), es);
    assert TaskOutcome(s, s.tasks[k]) by { EachTaskOutcome(s, k); }
  }

  lemma EachTaskOutcome(s: State, k: nat)
    requires Inv(s) && k < |s.tasks|
    ensures TaskOutcome(s, s.tasks[k])
  {
  }

  /** A marked request stays marked. */
  lemma {:induction false} StaysMarked(s: State, es: seq<Step>, k: nat)
    requires Inv(s) && k < |s.tasks| && s.tasks[k].waitedFor.Some?
    ensures var t := After(s, es); Inv(t) && k < |t.tasks| && t.tasks[k].waitedFor.Some?
    decreases es
  {
    if es != [] {
      NextKeepsInv(s, es[0]);
      MarkStays(s, es[0], k);
      hide Inv, Next;
      StaysMarked(Next(s, es[0]), es[1..], k);
    }
  }

  lemma MarkStays(s: State, e: Step, k: nat)
    requires k < |s.tasks| && s.tasks[k].waitedFor.Some?
    ensures k < |Next(s, e).tasks| && Next(s, e).tasks[k].waitedFor.Some?
  {
    hide CanHappen, RefreshEnds, RefreshResult, SF.Step, BffProxy.Step, IsCredentialRequest;
  }
}
