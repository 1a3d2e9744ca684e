/** What the counters of a request count, told by the steps of the run. */
module SessionCounts {
  import opened Options
  import opened UpstreamFetch
  import opened BffProxy
  import opened SessionProtocol
  import SF = SingleFlight

  datatype What = Sending | Asking | Applying

  /** The step sends request k to the server, asks the API for it, or is the API's applying it. */
  predicate Counts(s: State, e: Step, k: nat, what: What) {
    k < |s.tasks| &&
    match what
    case Sending =>
      || (e.Dispatch? && e.task == k && s.tasks[k].browser == Ready)
      || (e.Resume? && e.task == k && IsWaiting(s, k) && s.access.runs[AwaitedRun(s, k)].progress == SF.Done(true))
    case Asking =>
      && e.Server? && e.task == k && CanHappen(s, s.tasks[k], e.event, e.applied)
      && var phase := BffProxy.Step(s.tasks[k].request, s.tasks[k].refreshToken, s.tasks[k].phase, e.event);
         phase.Attempting? || phase.Replaying?
    case Applying => e.Server? && e.task == k && e.applied && CanHappen(s, s.tasks[k], e.event, e.applied)
  }

  function Times(es: seq<Step>, k: nat, what: What): nat {
    if es == [] then 0 else
      var front := es[..|es| - 1];
      Times(front, k, what) + (if Counts(SessionProtocol.Run(front), es[|es| - 1], k, what) then 1 else 0)
  }

  function Counter(s: State, k: nat, what: What): nat {
    if k >= |s.tasks| then 0 else
      match what
      case Sending => s.tasks[k].sent
      case Asking => s.tasks[k].allAttempts
      case Applying => s.tasks[k].applied
  }

  lemma StepCounts(s: State, e: Step, k: nat, what: What)
    ensures Counter(Next(s, e), k, what) == Counter(s, k, what) + if Counts(s, e, k, what) then 1 else 0
  {
    hide BffProxy.Step, SF.Step, RefreshEnds, RefreshResult, IsCredentialRequest, Enabled, NotApplied;
  }

  /** The counters are the numbers of these steps in the run, for every request. */
  lemma {:induction false} CountersCount(es: seq<Step>, k: nat, what: What)
    ensures Counter(SessionProtocol.Run(es), k, what) == Times(es, k, what)
  {
    if es != [] {
      CountersCount(es[..|es| - 1], k, what);
      hide Counts, Counter, Next;
      StepCounts(SessionProtocol.Run(es[..|es| - 1]), es[|es| - 1], k, what);
    }
  }

  const CHANGE := Request("PUT", "assets", false)

  lemma RunOn(es: seq<Step>, e: Step)
    ensures SessionProtocol.Run(es + [e]) == Next(SessionProtocol.Run(es), e)
  {
    assert (es + [e])[..|es|] == es;
  }

  /** A change can be applied behind every answer but a 401: the browser then gets the answer's status. */
  lemma ChangeCanBeApplied(status: nat) returns (es: seq<Step>)
    requires status != 401
    ensures var s := SessionProtocol.Run(es);
            |s.tasks| == 1 && s.tasks[0].request == CHANGE && s.tasks[0].applied == 1 && s.tasks[0].sent == 1
            && s.tasks[0].browser == Finished(Some(status))
  {
    var start := SessionProtocol.Run([]);
    ChangeIsAsked(start);
    ChangeIsAnswered(start, status);
    hide SessionProtocol.Run, Next;
    es := [];
    RunOn(es, Open(CHANGE));
    es := es + [Open(CHANGE)];
    RunOn(es, Dispatch(0, ""));
    es := es + [Dispatch(0, "")];
    RunOn(es, Server(0, Send, false));
    es := es + [Server(0, Send, false)];
    RunOn(es, Server(0, Result(Replied(status)), true));
    es := es + [Server(0, Result(Replied(status)), true)];
    RunOn(es, Deliver(0, false, true));
    es := es + [Deliver(0, false, true)];
  }

  const ASKED := Task(CHANGE, Waiting, false, Attempting(1), "", 0, 1, 1, 1, 0, None)

  lemma ChangeIsAsked(s: State)
    requires s.tasks == []
    ensures Next(Next(Next(s, Open(CHANGE)), Dispatch(0, "")), Server(0, Send, false)) == s.(tasks := [ASKED])
  {
    assert Next(Next(s, Open(CHANGE)), Dispatch(0, "")).tasks == [Sent(NewTask(CHANGE), "")];
  }

  lemma ChangeIsAnswered(s: State, status: nat)
    requires status != 401
    ensures Next(Next(s.(tasks := [ASKED]), Server(0, Result(Replied(status)), true)), Deliver(0, false, true))
            == s.(tasks := [ASKED.(phase := Answered(status), applied := 1, browser := Finished(Some(status)))])
  {
    assert Next(s.(tasks := [ASKED]), Server(0, Result(Replied(status)), true)).tasks
        == [ASKED.(phase := Answered(status), applied := 1)];
  }
}
