/** How the server classifies a failed attempt to reach the API and when it tries again. */
module UpstreamFetch {
  import opened Options
  import opened Text

  datatype Kind = Refused | ConnectionReset | Socket | Dns | Timeout | Config | Unknown

  datatype Failure = Failure(kind: Kind, status: nat, causeCode: string)

  /** An error value and the causes behind it; `code` is absent when it is not a text. */
  datatype Cause = NoCause | Cause(code: Option<string>, cause: Cause)

  /** What was thrown: its name if it is an error, its message in lower case, and its chain of causes. */
  datatype Thrown = Thrown(name: string, message: string, chain: Cause)

  const MAX_ATTEMPTS: nat := 3
  const RETRY_DELAYS: seq<nat> := [250, 750]

  /** The first code that is not empty among the next `n` causes. */
  function CodeWithin(c: Cause, n: nat): string {
    if c.NoCause? || n == 0 then ""
    else if c.code.Some? && c.code.value != "" then c.code.value
    else CodeWithin(c.cause, n - 1)
  }

  function OwnCode(c: Cause): string {
    if c.Cause? && c.code.Some? then c.code.value else ""
  }

  /** The i-th cause behind an error, which itself is the 0-th. */
  function CauseAt(error: Cause, i: nat): Cause {
    if i == 0 || error.NoCause? then error else CauseAt(error.cause, i - 1)
  }

  /** Its code, or the empty text. */
  function CodeAt(error: Cause, i: nat): string {
    match CauseAt(error, i)
    case Cause(Some(code), _) => code
    case _ => ""
  }

  /** The code of the nearest of the three causes that has one, and the error's own code when none of them has. */
  predicate IsCauseCode(error: Cause, code: string) {
    || (exists i | 1 <= i <= 3 ::
          && CodeAt(error, i) != "" && code == CodeAt(error, i)
          && forall j | 1 <= j < i :: CodeAt(error, j) == "")
    || ((forall i | 1 <= i <= 3 :: CodeAt(error, i) == "") && code == CodeAt(error, 0))
  }

  /** `readCauseCode`: the nearest code among the three causes behind an error, else the error's own code. */
  method ReadCauseCode(error: Cause) returns (code: string)
    ensures IsCauseCode(error, code)
    ensures code == CauseCode(error)
  {
    CauseCodeIs(error);
    var current := error;
    var depth := 0;
    while depth < 4 && current.Cause?
      invariant depth <= 4
      invariant depth == 0 ==> current == error
      invariant depth > 0 ==> error.Cause? && CodeWithin(error.cause, 3) == CodeWithin(current, 4 - depth)
    {
      if depth > 0 && current.code.Some? && current.code.value != "" {
        return current.code.value;
      }
      current := current.cause;
      depth := depth + 1;
    }
    return OwnCode(error);
  }

  function CauseCode(error: Cause): string {
    if error.Cause? && CodeWithin(error.cause, 3) != "" then CodeWithin(error.cause, 3) else OwnCode(error)
  }

  /** There is exactly one such code. */
  lemma CauseCodeIs(error: Cause)
    ensures forall code :: IsCauseCode(error, code) <==> code == CauseCode(error)
  {
    WithinCauses(error);
  }

  lemma WithinCauses(error: Cause)
    ensures CodeAt(error, 0) == OwnCode(error)
    ensures var c := if error.Cause? then CodeWithin(error.cause, 3) else "";
            c == if CodeAt(error, 1) != "" then CodeAt(error, 1)
                 else if CodeAt(error, 2) != "" then CodeAt(error, 2) else CodeAt(error, 3)
  {
    if error.Cause? {
      CausesFrom(error.cause);
      assert forall i: nat :: CauseAt(error, i + 1) == CauseAt(error.cause, i);
    }
  }

  lemma CausesFrom(c: Cause)
    ensures CodeWithin(c, 3) == if CodeAt(c, 0) != "" then CodeAt(c, 0)
                                else if CodeAt(c, 1) != "" then CodeAt(c, 1) else CodeAt(c, 2)
  {
    if c.Cause? {
      assert CauseAt(c, 1) == c.cause && CauseAt(c, 2) == CauseAt(c.cause, 1);
      if c.cause.Cause? {
        assert CauseAt(c.cause, 1) == c.cause.cause;
        assert CodeWithin(c.cause.cause, 1) == OwnCode(c.cause.cause);
        assert CodeWithin(c.cause, 2) == if OwnCode(c.cause) != "" then OwnCode(c.cause) else OwnCode(c.cause.cause);
      }
    }
  }

  predicate IsTimeoutCode(c: string) {
    c in {"UND_ERR_CONNECT_TIMEOUT", "UND_ERR_HEADERS_TIMEOUT", "UND_ERR_BODY_TIMEOUT", "ETIMEDOUT", "ABORT_ERR"}
  }

  predicate IsResetCode(c: string) { c in {"ECONNRESET", "EPIPE", "ECONNABORTED"} }

  predicate IsSocketCode(c: string) {
    c in {"UND_ERR_SOCKET", "UND_ERR_CLOSED", "EHOSTUNREACH", "ENETUNREACH", "ENETDOWN"}
  }

  predicate IsDnsCode(c: string) { c in {"ENOTFOUND", "EAI_AGAIN"} }

  function Or(a: string, b: string): string { if a != "" then a else b }

  /** `classifyUpstreamError` */
  function Classify(e: Thrown): Failure {
    var code := Upper(CauseCode(e.chain));
    if e.name == "BffUpstreamUrlError" || Contains(e.message, "upstream url") || Contains(e.message, "api_internal_url")
    then Failure(Config, 500, Or(code, "CONFIG"))
    else if e.name == "TimeoutError" || e.name == "AbortError" || IsTimeoutCode(code) || Contains(e.message, "timeout")
    then Failure(Timeout, 504, Or(Or(code, e.name), "TIMEOUT"))
    else if code == "ECONNREFUSED" || (code == "" && Contains(e.message, "econnrefused"))
    then Failure(Refused, 503, "ECONNREFUSED")
    else if IsResetCode(code) || (code == "" && Contains(e.message, "econnreset"))
    then Failure(ConnectionReset, 503, Or(code, "ECONNRESET"))
    else if IsSocketCode(code)
            || (code == "" && (Contains(e.message, "socket") || Contains(e.message, "other side closed")))
    then Failure(Socket, 503, Or(code, "SOCKET"))
    else if IsDnsCode(code) then Failure(Dns, 503, code)
    else Failure(Unknown, 503, Or(code, "UNKNOWN"))
  }

  /** The methods that section 9.2.1 of RFC 9110 calls safe, as far as the server knows them. */
  predicate IsSafe(httpMethod: string) { Upper(httpMethod) in {"GET", "HEAD", "OPTIONS"} }

  /** In any case of letters, these three methods and no others. */
  lemma SafeMethods(httpMethod: string)
    ensures IsSafe(httpMethod) <==>
              || (|httpMethod| == 3 && httpMethod[0] in "gG" && httpMethod[1] in "eE" && httpMethod[2] in "tT")
              || (|httpMethod| == 4 && httpMethod[0] in "hH" && httpMethod[1] in "eE" && httpMethod[2] in "aA"
                  && httpMethod[3] in "dD")
              || (|httpMethod| == 7 && httpMethod[0] in "oO" && httpMethod[1] in "pP" && httpMethod[2] in "tT"
                  && httpMethod[3] in "iI" && httpMethod[4] in "oO" && httpMethod[5] in "nN" && httpMethod[6] in "sS")
  {
    var u := Upper(httpMethod);
    assert |u| == 3 ==> (u == "GET" <==> u[0] == 'G' && u[1] == 'E' && u[2] == 'T');
    assert |u| == 4 ==> (u == "HEAD" <==> u[0] == 'H' && u[1] == 'E' && u[2] == 'A' && u[3] == 'D');
    assert |u| == 7 ==> (u == "OPTIONS" <==> u[0] == 'O' && u[1] == 'P' && u[2] == 'T' && u[3] == 'I'
                                             && u[4] == 'O' && u[5] == 'N' && u[6] == 'S');
  }

  /** `shouldRetryUpstream` */
  predicate ShouldRetry(httpMethod: string, failure: Failure, hasIdempotencyKey: bool) {
    if failure.kind == Timeout || failure.kind == Config then false
    else if IsSafe(httpMethod) then failure.kind in {Refused, ConnectionReset, Socket}
    else failure.kind == Refused && hasIdempotencyKey
  }

  /** What one attempt gives: a reply of the API, or an error. */
  datatype Reply = Replied(status: nat) | Threw(error: Thrown)

  datatype FetchResult = Ok(status: nat, attempts: nat) | Failed(failure: Failure, attempts: nat)

  /** Whether attempt number `n` with this reply is followed by another. */
  predicate WillRetry(httpMethod: string, hasIdempotencyKey: bool, n: nat, reply: Reply) {
    reply.Threw? && n < MAX_ATTEMPTS && ShouldRetry(httpMethod, Classify(reply.error), hasIdempotencyKey)
  }

  /** The line written for a failed attempt. */
  datatype AttemptLog = AttemptLog(causeCode: string, attempt: nat, willRetry: bool)

  /**
   * `fetchUpstreamWithRetry` against an upstream that answers attempt k with `upstream(k)`. Every attempt but
   * the last failed in a way that may be retried, the last one did not or was the third, and each failed
   * attempt is logged and, when followed by another, waited for.
   */
  method FetchUpstreamWithRetry(httpMethod: string, hasIdempotencyKey: bool, upstream: nat -> Reply)
    returns (r: FetchResult, log: seq<AttemptLog>, sleeps: seq<nat>)
    ensures 1 <= r.attempts <= 3
    ensures forall k | 1 <= k < r.attempts :: WillRetry(httpMethod, hasIdempotencyKey, k, upstream(k))
    ensures !WillRetry(httpMethod, hasIdempotencyKey, r.attempts, upstream(r.attempts))
    ensures r == match upstream(r.attempts)
                 case Replied(status) => Ok(status, r.attempts)
                 case Threw(error) => Failed(Classify(error), r.attempts)
    ensures sleeps == [250, 750][..r.attempts - 1]
    ensures |log| == (if r.Ok? then r.attempts - 1 else r.attempts)
    ensures forall k | 0 <= k < |log| :: upstream(k + 1).Threw? &&
              log[k] == AttemptLog(Classify(upstream(k + 1).error).causeCode, k + 1, k + 1 < r.attempts)
  {
    hide Classify, ShouldRetry;
    var attempt := 0;
    log, sleeps := [], [];
    while true
      invariant attempt < MAX_ATTEMPTS
      invariant forall k | 1 <= k <= attempt :: WillRetry(httpMethod, hasIdempotencyKey, k, upstream(k))
      invariant sleeps == RETRY_DELAYS[..attempt]
      invariant |log| == attempt
      invariant forall k | 0 <= k < |log| :: upstream(k + 1).Threw? &&
                  log[k] == AttemptLog(Classify(upstream(k + 1).error).causeCode, k + 1, true)
      decreases MAX_ATTEMPTS - attempt
    {
      attempt := attempt + 1;
      match upstream(attempt) {
        case Replied(status) =>
          return Ok(status, attempt), log, sleeps;
        case Threw(error) =>
          var failure := Classify(error);
          var willRetry := attempt < MAX_ATTEMPTS && ShouldRetry(httpMethod, failure, hasIdempotencyKey);
          log := log + [AttemptLog(failure.causeCode, attempt, willRetry)];
          if !willRetry {
            return Failed(failure, attempt), log, sleeps;
          }
          var slot := if attempt - 1 <= |RETRY_DELAYS| - 1 then attempt - 1 else |RETRY_DELAYS| - 1;
          sleeps := sleeps + [RETRY_DELAYS[slot]];
      }
    }
  }

  /** The error tells of a misconfigured address, whatever else it tells. */
  predicate TellsConfig(e: Thrown) {
    e.name == "BffUpstreamUrlError" || Contains(e.message, "upstream url") || Contains(e.message, "api_internal_url")
  }

  /** The error tells of a timeout by its name, its message or its code. */
  predicate TellsTimeout(e: Thrown, code: string) {
    || e.name in {"TimeoutError", "AbortError"} || Contains(e.message, "timeout")
    || code in {"UND_ERR_CONNECT_TIMEOUT", "UND_ERR_HEADERS_TIMEOUT", "UND_ERR_BODY_TIMEOUT", "ETIMEDOUT", "ABORT_ERR"}
  }

  /** The API was not reached: told by the code, or by the message of an error without one. */
  predicate NotReached(e: Thrown, code: string) {
    code == "ECONNREFUSED" || (code == "" && Contains(e.message, "econnrefused"))
  }

  /** The connection broke down at some time, told in the same way. */
  predicate BrokeDown(e: Thrown, code: string) {
    || code in {"ECONNRESET", "EPIPE", "ECONNABORTED", "UND_ERR_SOCKET", "UND_ERR_CLOSED", "EHOSTUNREACH",
                "ENETUNREACH", "ENETDOWN"}
    || (code == "" && (Contains(e.message, "econnreset") || Contains(e.message, "socket")
                       || Contains(e.message, "other side closed")))
  }

  /**
   * The documented policy, from any thrown error to the decision: a read is tried again when the API was not reached
   * or the connection broke down; a change only when it was not reached, and with an idempotency key; nothing
   * behind a misconfiguration or a timeout. The code is that of the nearest cause, in capitals.
   */
  lemma RetryPolicy(httpMethod: string, hasIdempotencyKey: bool, n: nat, e: Thrown, code: string)
    requires IsCauseCode(e.chain, code)
    ensures var c := Upper(code);
            WillRetry(httpMethod, hasIdempotencyKey, n, Threw(e)) <==>
              && n < 3 && !TellsConfig(e) && !TellsTimeout(e, c)
              && if Upper(httpMethod) in {"GET", "HEAD", "OPTIONS"} then NotReached(e, c) || BrokeDown(e, c)
                 else NotReached(e, c) && hasIdempotencyKey
  {
    CauseCodeIs(e.chain);
    hide Contains, CauseCode, Upper, IsCauseCode;
    TimeoutCodesAreOwn(Upper(code));
  }

  /** What is reported: the status, and the code or a word for what is told in its place. */
  lemma FailureTold(e: Thrown, code: string)
    requires IsCauseCode(e.chain, code)
    ensures Classify(e).status == (if TellsConfig(e) then 500 else if TellsTimeout(e, Upper(code)) then 504 else 503)
    ensures code != "" ==> Classify(e).causeCode == Upper(code)
    ensures code == "" ==> Classify(e).causeCode == if TellsConfig(e) then "CONFIG"
                             else if TellsTimeout(e, "") then (if e.name != "" then e.name else "TIMEOUT")
                             else if NotReached(e, "") then "ECONNREFUSED"
                             else if Contains(e.message, "econnreset") then "ECONNRESET"
                             else if BrokeDown(e, "") then "SOCKET" else "UNKNOWN"
  {
    CauseCodeIs(e.chain);
    assert Upper(code) == "" <==> code == "";
    hide Contains, CauseCode, Upper, IsCauseCode;
    TimeoutCodesAreOwn(Upper(code));
  }

  /** The ordinary refused fetch: an error without a code, whose cause has it. A GET is tried again. */
  lemma RefusedGetIsRetried(message: string, n: nat)
    requires n < 3 && !Contains(message, "upstream url") && !Contains(message, "api_internal_url")
    requires !Contains(message, "timeout")
    ensures var e := Thrown("TypeError", message, Cause(None, Cause(Some("ECONNREFUSED"), NoCause)));
            WillRetry("GET", false, n, Threw(e))
  {
    var e := Thrown("TypeError", message, Cause(None, Cause(Some("ECONNREFUSED"), NoCause)));
    hide Contains;
    assert CodeAt(e.chain, 1) == "ECONNREFUSED";
    assert Upper("GET") == "GET" && Upper("ECONNREFUSED") == "ECONNREFUSED";
    hide Upper;
    RetryPolicy("GET", false, n, e, "ECONNREFUSED");
  }

  /** No timeout code is also a code that is tried again. */
  lemma TimeoutCodesAreOwn(code: string)
    ensures IsTimeoutCode(code) ==> code != "ECONNREFUSED" && !IsResetCode(code) && !IsSocketCode(code)
  {
  }

  /** Timeouts are never tried again, whatever else the error says. */
  lemma TimeoutsAreFinal(httpMethod: string, hasIdempotencyKey: bool, n: nat, e: Thrown, code: string)
    requires IsCauseCode(e.chain, code) && TellsTimeout(e, Upper(code))
    ensures !WillRetry(httpMethod, hasIdempotencyKey, n, Threw(e))
    ensures Classify(e).status == if TellsConfig(e) then 500 else 504
  {
    RetryPolicy(httpMethod, hasIdempotencyKey, n, e, code);
    FailureTold(e, code);
  }

  /** The failure of an attempt is never reported as an expired session. */
  lemma FailuresAreNot401(e: Thrown)
    ensures Classify(e).status in {500, 503, 504}
  {
  }
}
