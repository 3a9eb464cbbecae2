/**
 * The task engine of spider/factory.go: the task loop and its retry loop, against a language of event traces.
 */
module SpiderTask {
  import opened SpiderChain

  datatype Event =
    | PreCheck | PreStart | Start
    | Pass        // one run of the pipeline
    | OnRetry | OnFailed | OnFinished
    | Cancelled   // the retry loop saw the item or the program cancelled
    | Left        // the task loop left at its stop and cancel checks
    | Closed

  /**
   * Everything a run depends on: what callbacks and handlers do during event number i, whether the checks at the
   * top of round r make the loop leave, and whether the retry loop sees a cancel after try t of request r.
   */
  datatype Env = Env(
    handlers: nat, maxRetryTimes: int,
    script: nat -> seq<Action>, scripts: nat -> Scripts,
    leaves: nat -> bool, cancels: (nat, nat) -> bool)

  datatype Phase =
    | Fresh | Checked | PreStarted | Started
    | Passed(k: nat)      // k passes of the current request are over
    | Retrying(k: nat) | Rechecked(k: nat) | Restarted(k: nat)
    | GaveUp              // cancelled while a retry was due
    | Reported            // OnFailed was called
    | Finished | Leaving | Done | Bad

  /** Where a run is, the context as it is then, and the number of events and of requests so far. */
  datatype State = State(phase: Phase, view: View, tryTimes: nat, count: nat, requests: nat)

  const INITIAL := State(Fresh, View(0, Uninit, false, []), 0, 0, 0)

  predicate Stopped(st: State) { st.view.index == -1 }

  /** The passes of one request are over: it succeeded, was skipped or stopped, is exhausted, or was cancelled. */
  predicate RequestOver(st: State, env: Env) {
    match st.phase
    case Passed(k) => Stopped(st) || st.view.status != Failed || k > env.maxRetryTimes
    case Rechecked(_) => Stopped(st)
    case GaveUp => true
    case _ => false
  }

  predicate WantsPass(st: State) { st.view.hasNewRequest && !Stopped(st) }

  /** What comes next: an event and the phase behind it; nothing comes behind a complete run. */
  datatype Move = Move(event: Event, to: Phase) | NoMove

  /** Between two requests: without another request, or stopped, the task finishes; else the checks decide. */
  function BetweenRequests(st: State, env: Env): Move {
    if !WantsPass(st) then Move(OnFinished, Finished)
    else if env.leaves(st.requests) then Move(Left, Leaving)
    else Move(Pass, Passed(1))
  }

  function NextMove(st: State, env: Env): Move {
    if RequestOver(st, env) then
      if st.view.status == Failed then Move(OnFailed, Reported) else BetweenRequests(st, env)
    else
      match st.phase
      case Fresh => if env.leaves(0) then Move(Left, Leaving) else Move(PreCheck, Checked)
      case Checked => Move(PreStart, PreStarted)
      case PreStarted => if Stopped(st) then Move(OnFinished, Finished) else Move(Start, Started)
      case Started => if !WantsPass(st) then Move(OnFinished, Finished) else Move(Pass, Passed(1))
      case Passed(k) =>
        if env.cancels(st.requests, k) then Move(Cancelled, GaveUp) else Move(OnRetry, Phase.Retrying(k))
      case Retrying(k) => Move(PreCheck, Rechecked(k))
      case Rechecked(k) => Move(Start, Restarted(k))
      case Restarted(k) => Move(Pass, Passed(k + 1))
      case Reported => BetweenRequests(st, env)
      case Finished => Move(Closed, Done)
      case Leaving => Move(Closed, Done)
      case _ => NoMove
  }

  /** The language of task runs. */
  function NextPhase(st: State, e: Event, env: Env): Phase {
    var move := NextMove(st, env);
    if move.Move? && e == move.event then move.to else Bad
  }

  /** What an event does to the context: a pass, a callback, or nothing. */
  function NextView(st: State, e: Event, env: Env): View
    requires st.view.index >= -1
  {
    match e
    case Pass =>
      if env.handlers > 0 then PassOn(env.scripts(st.count), env.handlers) else View(st.view.index, Failed, false, [])
    case Start =>
      if st.phase.Rechecked?
      then
        var retrying := st.view.(status := Status.Retrying, calls := []);
        Play(env.scripts(st.count), env.handlers, env.script(st.count), retrying).(status := Failed)
      else Play(env.scripts(st.count), env.handlers, env.script(st.count), st.view.(calls := []))
    case Cancelled => st.view
    case Left => st.view
    case Closed => st.view
    case _ => Play(env.scripts(st.count), env.handlers, env.script(st.count), st.view.(calls := []))
  }

  function Step(st: State, e: Event, env: Env): (t: State)
    requires st.view.index >= -1
    ensures t.view.index >= -1
  {
    var phase := NextPhase(st, e, env);
    var tries := if phase.Restarted? then st.tryTimes + 1 else if phase == Passed(1) then 0 else st.tryTimes;
    State(phase, NextView(st, e, env), tries, st.count + 1, if phase == Passed(1) then st.requests + 1 else st.requests)
  }

  function Run(trace: seq<Event>, env: Env): (st: State)
    ensures st.view.index >= -1 && st.count == |trace|
  {
    if trace == [] then INITIAL else Step(Run(trace[..|trace| - 1], env), trace[|trace| - 1], env)
  }

  lemma RunSnoc(trace: seq<Event>, e: Event, env: Env)
    ensures Run(trace + [e], env) == Step(Run(trace, env), e, env)
  {
    assert (trace + [e])[..|trace|] == trace;
  }

  // ---------------------------------------------------------------- what the language says

  function Count(trace: seq<Event>, e: Event): nat {
    if trace == [] then 0 else Count(trace[..|trace| - 1], e) + (if trace[|trace| - 1] == e then 1 else 0)
  }

  predicate Ended(p: Phase) { p.Finished? || p.Leaving? || p.Done? }

  lemma StepEnds(st: State, e: Event, env: Env)
    requires !NextPhase(st, e, env).Bad?
    ensures var p := NextPhase(st, e, env);
      && !st.phase.Bad? && !st.phase.Done?
      && (p.Finished? <==> e == OnFinished) && (p.Leaving? <==> e == Left) && (p.Done? <==> e == Closed)
      && (Ended(st.phase) <==> p.Done?)
  {}

  /** How often a run was ended, by phase: finished, left, closed. */
  lemma {:induction false} EndsSoFar(trace: seq<Event>, env: Env)
    requires !Run(trace, env).phase.Bad?
    ensures var p := Run(trace, env).phase;
      && Count(trace, OnFinished) + Count(trace, Left) == (if Ended(p) then 1 else 0)
      && Count(trace, Closed) == (if p.Done? then 1 else 0)
      && (p.Finished? ==> trace != [] && trace[|trace| - 1] == OnFinished && Count(trace, Left) == 0)
      && (p.Leaving? ==> trace != [] && trace[|trace| - 1] == Left && Count(trace, Left) == 1)
  {
    hide NextPhase, NextView;
    if trace != [] {
      var init := trace[..|trace| - 1];
      StepEnds(Run(init, env), trace[|trace| - 1], env);
      EndsSoFar(init, env);
    }
  }

  /**
   * A complete run ends in exactly one way: OnFinished once, as the last spider callback, or else by leaving at
   * the checks at the top of the loop; then the context is closed, once.
   */
  lemma RunEndsOnce(trace: seq<Event>, env: Env)
    requires Run(trace, env).phase == Done
    ensures |trace| >= 2 && trace[|trace| - 1] == Closed && Count(trace, Closed) == 1
    ensures Count(trace, OnFinished) + Count(trace, Left) == 1
    ensures trace[|trace| - 2] == if Count(trace, Left) == 1 then Left else OnFinished
  {
    hide NextPhase, NextView;
    var init := trace[..|trace| - 1];
    StepEnds(Run(init, env), trace[|trace| - 1], env);
    EndsSoFar(trace, env);
    EndsSoFar(init, env);
  }

  /** What a run in the language begins with is in the language, and not yet complete. */
  lemma {:induction false} PrefixIsOpen(trace: seq<Event>, k: nat, env: Env)
    requires k < |trace| && !Run(trace, env).phase.Bad?
    ensures !Run(trace[..k], env).phase.Bad? && !Run(trace[..k], env).phase.Done?
    ensures !NextPhase(Run(trace[..k], env), trace[k], env).Bad?
  {
    hide NextPhase, NextView;
    var init := trace[..|trace| - 1];
    StepEnds(Run(init, env), trace[|trace| - 1], env);
    if k < |init| {
      PrefixIsOpen(init, k, env);
      assert init[..k] == trace[..k];
    }
  }

  lemma {:induction false} RunsAgree(s: seq<Event>, t: seq<Event>, k: nat, env: Env)
    requires !Run(s, env).phase.Bad? && !Run(t, env).phase.Bad? && k <= |s| && k <= |t|
    ensures s[..k] == t[..k]
  {
    hide NextMove, NextView, Run;
    if k > 0 {
      RunsAgree(s, t, k - 1, env);
      PrefixIsOpen(s, k - 1, env);
      PrefixIsOpen(t, k - 1, env);
      assert s[..k] == s[..k - 1] + [s[k - 1]] && t[..k] == t[..k - 1] + [t[k - 1]];
    }
  }

  /** A run that is complete is no shorter than any other run. */
  lemma NoneIsLonger(s: seq<Event>, t: seq<Event>, env: Env)
    requires Run(s, env).phase == Done && !Run(t, env).phase.Bad?
    ensures |t| <= |s|
  {
    hide NextPhase, NextView, Run;
    assert s[..|s|] == s;
    if |s| < |t| {
      RunsAgree(s, t, |s|, env);
      PrefixIsOpen(t, |s|, env);
    }
  }

  /** In a given environment there is one complete run, and every run is a prefix of it. */
  lemma CompleteRunIsUnique(s: seq<Event>, t: seq<Event>, env: Env)
    requires Run(s, env).phase == Done && !Run(t, env).phase.Bad?
    ensures t <= s && (Run(t, env).phase == Done ==> t == s)
  {
    hide NextPhase, NextView, Run;
    NoneIsLonger(s, t, env);
    RunsAgree(s, t, |t|, env);
    assert t[..|t|] == t;
    if Run(t, env).phase == Done { NoneIsLonger(t, s, env); }
  }

  /** No run is stuck: until it is complete there is a next event. */
  lemma OpenRunGoesOn(trace: seq<Event>, env: Env) returns (e: Event)
    requires !Run(trace, env).phase.Bad? && !Run(trace, env).phase.Done?
    ensures !Run(trace + [e], env).phase.Bad?
  {
    hide NextView, Run;
    e := NextMove(Run(trace, env), env).event;
    RunSnoc(trace, e, env);
  }

  lemma {:induction false} RequestsGrow(trace: seq<Event>, k: nat, env: Env)
    requires k <= |trace|
    ensures Run(trace[..k], env).requests <= Run(trace, env).requests
  {
    hide NextPhase, NextView;
    if k < |trace| {
      var init := trace[..|trace| - 1];
      assert init[..k] == trace[..k];
      RequestsGrow(init, k, env);
    } else {
      assert trace[..k] == trace;
    }
  }

  /** A run makes no more requests than the complete run that it begins. */
  lemma EnoughRounds(s: seq<Event>, t: seq<Event>, env: Env)
    requires Run(s, env).phase == Done && !Run(t, env).phase.Bad?
    ensures t <= s && Run(t, env).requests <= Run(s, env).requests
  {
    hide NextPhase, NextView, Run;
    CompleteRunIsUnique(s, t, env);
    RequestsGrow(s, |t|, env);
    assert s[..|t|] == t;
  }

  predicate AtTheChecks(st: State, env: Env) {
    || st.phase == Fresh
    || (WantsPass(st) && (st.phase == Reported || (RequestOver(st, env) && st.view.status != Failed)))
  }

  lemma StepLeaves(st: State, e: Event, env: Env)
    ensures NextPhase(st, e, env) == Leaving ==>
      AtTheChecks(st, env) && env.leaves(if st.phase == Fresh then 0 else st.requests)
    ensures NextPhase(st, e, env) != Fresh
  {}

  lemma RunFromFresh(trace: seq<Event>, env: Env)
    ensures Run(trace, env).phase == Fresh ==> trace == []
  {
    hide NextPhase, NextView;
    if trace != [] { StepLeaves(Run(trace[..|trace| - 1], env), trace[|trace| - 1], env); }
  }

  /** A run leaves only when the checks say so, and only before the first request or between two requests. */
  lemma LeavesOnlyAtTheChecks(trace: seq<Event>, env: Env)
    requires trace != [] && Run(trace, env).phase == Leaving
    ensures var st := Run(trace[..|trace| - 1], env); AtTheChecks(st, env) && env.leaves(st.requests)
  {
    hide NextPhase, NextView, RequestOver, WantsPass;
    var init := trace[..|trace| - 1];
    RunFromFresh(init, env);
    StepLeaves(Run(init, env), trace[|trace| - 1], env);
  }

  /**
   * OnFailed is called exactly when the request has just ended Failed, that is, exhausted, stopped or cancelled.
   */
  lemma FailedExactlyAfterFailure(trace: seq<Event>, e: Event, env: Env)
    requires !Run(trace + [e], env).phase.Bad?
    ensures var st := Run(trace, env);
      && (e == OnFailed <==> RequestOver(st, env) && st.view.status == Failed)
      && (e == OnFailed ==> Stopped(st) || st.phase.GaveUp? || (st.phase.Passed? && st.phase.k > env.maxRetryTimes))
  {
    hide Run, NextView;
    RunSnoc(trace, e, env);
  }

  /** The passes of a request and its retries: at most MaxRetryTimes + 1 passes, each one retry further. */
  lemma {:induction false} PassesAreBounded(trace: seq<Event>, env: Env)
    ensures var st := Run(trace, env);
      && (st.phase.Passed? ==>
            && st.phase.k >= 1 && st.tryTimes == st.phase.k - 1
            && (st.phase.k == 1 || st.phase.k <= env.maxRetryTimes + 1))
      && (st.phase.Retrying? || st.phase.Rechecked? ==>
            st.tryTimes == st.phase.k - 1 && 1 <= st.phase.k <= env.maxRetryTimes)
      && (st.phase.Restarted? ==> st.tryTimes == st.phase.k && 1 <= st.phase.k <= env.maxRetryTimes)
  {
    hide NextView;
    if trace != [] { PassesAreBounded(trace[..|trace| - 1], env); }
  }

  /** At most so many passes are made for one request. */
  function PassLimit(env: Env): nat { if env.maxRetryTimes > 0 then env.maxRetryTimes + 1 else 1 }

  function Allowed(requests: nat, limit: nat): nat { requests * limit }

  lemma OneMoreRequest(requests: nat, limit: nat)
    ensures Allowed(requests + 1, limit) == Allowed(requests, limit) + limit
  {}

  /** A request is being passed, its k-th pass being the last so far. */
  predicate IsPassing(p: Phase) { p.Passed? || p.Retrying? || p.Rechecked? || p.Restarted? }

  /** What the events so far have used up of the limits: of passes, and of OnFailed calls. */
  ghost predicate WithinLimits(trace: seq<Event>, st: State, env: Env) {
    var limit, used := PassLimit(env), if IsPassing(st.phase) then PassLimit(env) - st.phase.k else 0;
    && Count(trace, Pass) + used <= Allowed(st.requests, limit)
    && st.requests <= Count(trace, Pass)
    && Count(trace, OnFailed) + (if IsPassing(st.phase) || st.phase.GaveUp? then 1 else 0) <= st.requests
  }

  lemma CountSnoc(trace: seq<Event>, e: Event, f: Event)
    ensures Count(trace + [e], f) == Count(trace, f) + (if e == f then 1 else 0)
  {
    assert (trace + [e])[..|trace|] == trace;
  }

  lemma StepStaysWithin(trace: seq<Event>, st: State, e: Event, env: Env)
    requires st.view.index >= -1 && WithinLimits(trace, st, env) && !NextPhase(st, e, env).Bad?
    requires IsPassing(st.phase) ==> st.phase.k <= PassLimit(env)
    requires st.phase.Restarted? ==> st.phase.k < PassLimit(env)
    ensures WithinLimits(trace + [e], Step(st, e, env), env)
  {
    hide NextView, Count, PassLimit, Allowed;
    OneMoreRequest(st.requests, PassLimit(env));
    CountSnoc(trace, e, Pass);
    CountSnoc(trace, e, OnFailed);
  }

  lemma {:induction false} RunStaysWithin(trace: seq<Event>, env: Env)
    requires !Run(trace, env).phase.Bad?
    ensures WithinLimits(trace, Run(trace, env), env)
  {
    hide NextPhase, NextView, WithinLimits;
    if trace == [] {
      NothingIsWithin(env);
    } else {
      var init, e := trace[..|trace| - 1], trace[|trace| - 1];
      StepEnds(Run(init, env), e, env);
      RunStaysWithin(init, env);
      PassesAreBounded(init, env);
      assert trace == init + [e];
      StepStaysWithin(init, Run(init, env), e, env);
    }
  }

  lemma NothingIsWithin(env: Env)
    ensures WithinLimits([], INITIAL, env)
  {}

  /**
   * Over any run there is at least one pass for each request and at most MaxRetryTimes + 1, one if there are no
   * retries; and OnFailed is called at most once for each request.
   */
  lemma PassesPerRequest(trace: seq<Event>, env: Env)
    requires !Run(trace, env).phase.Bad?
    ensures var requests := Run(trace, env).requests;
      && requests <= Count(trace, Pass) <= requests * PassLimit(env)
      && Count(trace, OnFailed) <= requests
  {
    hide Run;
    RunStaysWithin(trace, env);
    PassesAreBounded(trace, env);
  }

  /** IsMaxRetry holds in a pass exactly when failing it ends the request: no retry is left. */
  lemma MaxRetryIsTheLastPass(trace: seq<Event>, env: Env)
    requires Run(trace, env).phase.Passed?
    ensures var st := Run(trace, env);
      st.tryTimes == env.maxRetryTimes <==>
        RequestOver(st.(view := View(0, Failed, true, [])), env) && env.maxRetryTimes >= 0
  {
    PassesAreBounded(trace, env);
  }

  // ---------------------------------------------------------------- which event follows which

  /** A request is over and was not reported as failed, or was already: another one, or the end. */
  function AfterRequest(st: State, env: Env): Event {
    if !st.view.hasNewRequest || st.view.index == -1 then OnFinished
    else if env.leaves(st.requests) then Left
    else Pass
  }

  function AfterPasses(st: State, env: Env): Event {
    if st.view.status == Failed then OnFailed else AfterRequest(st, env)
  }

  /**
   * What comes behind an event, from what can be seen then: the event itself, the context, the requests and the
   * retries so far, the configuration and the checks.
   */
  function EventAfter(last: Event, st: State, env: Env): Event {
    match last
    case PreCheck =>
      if st.requests == 0 then PreStart else if st.view.index == -1 then AfterPasses(st, env) else Start
    case PreStart => if st.view.index == -1 then OnFinished else Start
    case Start =>
      if st.requests > 0 then Pass
      else if st.view.hasNewRequest && st.view.index != -1 then Pass
      else OnFinished
    case Pass =>
      if st.view.index == -1 || st.view.status != Failed || st.tryTimes + 1 > env.maxRetryTimes
      then AfterPasses(st, env)
      else if env.cancels(st.requests, st.tryTimes + 1) then Cancelled
      else OnRetry
    case OnRetry => PreCheck
    case Cancelled => AfterPasses(st, env)
    case OnFailed => AfterRequest(st, env)
    case _ => Closed
  }

  function FirstEvent(env: Env): Event { if env.leaves(0) then Left else PreCheck }

  /** The last event, and the counts, tell the phase of a run. */
  predicate Tells(last: Event, st: State) {
    match st.phase
    case Fresh => false
    case Checked => last == PreCheck && st.requests == 0
    case PreStarted => last == PreStart
    case Started => last == Start && st.requests == 0
    case Passed(k) => last == Pass && st.requests > 0 && k == st.tryTimes + 1
    case Retrying(k) => last == OnRetry && st.requests > 0 && k == st.tryTimes + 1
    case Rechecked(k) => last == PreCheck && st.requests > 0 && k == st.tryTimes + 1
    case Restarted(k) => last == Start && st.requests > 0 && k == st.tryTimes
    case GaveUp => last == Cancelled
    case Reported => last == OnFailed
    case Finished => last == OnFinished
    case Leaving => last == Left
    case Done => last == Closed
    case Bad => true
  }

  /** Before the first request there is none, and behind it there is one. */
  predicate CountsRequests(st: State) {
    && (st.phase.Fresh? || st.phase.Checked? || st.phase.PreStarted? || st.phase.Started? ==> st.requests == 0)
    && (IsPassing(st.phase) || st.phase.GaveUp? || st.phase.Reported? ==> st.requests > 0)
  }

  lemma StepTells(st: State, last: Event, e: Event, env: Env)
    requires st.view.index >= -1 && CountsRequests(st) && (st.phase.Fresh? || Tells(last, st))
    ensures Tells(e, Step(st, e, env)) && CountsRequests(Step(st, e, env))
  {
    hide NextView;
  }

  lemma {:induction false} RunTells(trace: seq<Event>, env: Env)
    ensures CountsRequests(Run(trace, env))
    ensures trace != [] ==> Tells(trace[|trace| - 1], Run(trace, env))
  {
    hide Step, Tells, CountsRequests;
    if trace == [] {
      NothingTold();
    } else {
      var init := trace[..|trace| - 1];
      RunTells(init, env);
      StepTells(Run(init, env), if init == [] then Closed else init[|init| - 1], trace[|trace| - 1], env);
    }
  }

  lemma NothingTold()
    ensures CountsRequests(INITIAL)
  {}

  lemma MoveIsEventAfter(st: State, last: Event, env: Env)
    requires Tells(last, st) && CountsRequests(st) && !st.phase.Bad? && !st.phase.Done?
    ensures NextMove(st, env).Move? && NextMove(st, env).event == EventAfter(last, st, env)
    ensures !NextMove(st, env).to.Bad?
  {}

  /**
   * The events of a task, one after the other: a run goes on with an event exactly when that is the one that comes
   * behind its last event.
   */
  lemma EventsFollow(trace: seq<Event>, e: Event, env: Env)
    requires !Run(trace, env).phase.Bad? && !Run(trace, env).phase.Done?
    ensures !Run(trace + [e], env).phase.Bad? <==>
      e == if trace == [] then FirstEvent(env) else EventAfter(trace[|trace| - 1], Run(trace, env), env)
  {
    hide NextMove, NextView, Run, Tells, EventAfter;
    RunSnoc(trace, e, env);
    RunTells(trace, env);
    StartsEmpty(env);
    if trace == [] {
      FirstMove(env);
    } else {
      MoveIsEventAfter(Run(trace, env), trace[|trace| - 1], env);
    }
  }

  lemma FirstMove(env: Env)
    ensures NextMove(INITIAL, env).Move? && NextMove(INITIAL, env).event == FirstEvent(env)
    ensures !NextMove(INITIAL, env).to.Bad?
  {}

  /** A pass whose last status is Ok or Skipped is followed by no retry and by no report of a failure. */
  lemma {:induction false} SuccessIsNotRetried(trace: seq<Event>, e: Event, env: Env)
    requires env.handlers > 0 && !Run(trace + [Pass] + [e], env).phase.Bad?
    requires LastStatus(PassActions(env.scripts(|trace|), env.handlers), Failed) != Failed
    ensures e != OnRetry && e != OnFailed && e != Cancelled
  {
    hide Run, Step, EventAfter, PassOn, PassActions, LastStatus, NextPhase, NextMove;
    var passed := trace + [Pass];
    PassView(trace, env);
    StepIsOpen(passed, e, env);
    EventsFollow(passed, e, env);
    PassLeavesWhatHandlersDo(env.scripts(|trace|), env.handlers);
    SuccessGoesOn(Run(passed, env), env);
  }

  lemma PassView(trace: seq<Event>, env: Env)
    requires env.handlers > 0
    ensures Run(trace + [Pass], env).view == PassOn(env.scripts(|trace|), env.handlers)
  {
    hide PassOn, NextPhase;
    RunSnoc(trace, Pass, env);
  }

  lemma StepIsOpen(trace: seq<Event>, e: Event, env: Env)
    requires !Run(trace + [e], env).phase.Bad?
    ensures !Run(trace, env).phase.Bad? && !Run(trace, env).phase.Done?
  {
    hide Run, NextPhase, NextView;
    RunSnoc(trace, e, env);
    StepEnds(Run(trace, env), e, env);
  }

  lemma SuccessGoesOn(st: State, env: Env)
    requires st.view.status != Failed
    ensures var e := EventAfter(Pass, st, env); e == OnFinished || e == Left || e == Pass
  {}

  /** A pass in which no handler sets a status fails, and so does one without handlers, which asks for no request. */
  lemma SilentPassFails(trace: seq<Event>, env: Env)
    requires env.handlers > 0 ==>
      LastStatus(PassActions(env.scripts(|trace|), env.handlers), Failed) == Failed
    ensures var v := Run(trace + [Pass], env).view;
      v.status == Failed && (env.handlers == 0 ==> !v.hasNewRequest && v.index == Run(trace, env).view.index)
  {
    hide Run, PassOn, NextPhase;
    RunSnoc(trace, Pass, env);
    if env.handlers > 0 { PassLeavesWhatHandlersDo(env.scripts(|trace|), env.handlers); }
  }

  /** Every callback runs its whole script on the context, from where the last event left it. */
  lemma CallbackRuns(trace: seq<Event>, e: Event, env: Env, a: Action)
    requires IsCallback(e) && !(e.Start? && Run(trace, env).phase.Rechecked?)
    ensures var before, after, n := Run(trace, env).view, Run(trace + [e], env).view, |trace|;
      var actions := Performed(env.scripts(n), env.handlers, env.script(n), before.(calls := []));
      && after.status == LastStatus(actions, before.status)
      && (after.hasNewRequest <==> before.hasNewRequest || NewRequest in actions)
      && (after.index == -1 <==> before.index == -1 || CallStop in actions)
      && (a in env.script(n) ==> a in actions)
  {
    hide Run, Play, Performed, NextMove;
    RunSnoc(trace, e, env);
    var n, start := |trace|, Run(trace, env).view.(calls := []);
    PlayLeaves(env.scripts(n), env.handlers, env.script(n), start);
    if a in env.script(n) { ScriptIsPerformed(env.scripts(n), env.handlers, env.script(n), start, a); }
  }

  /** When a retry has run Start again, the status is Failed whatever Start did to it; during Start it is not. */
  lemma RetryLeavesFailed(trace: seq<Event>, env: Env)
    requires Run(trace + [Start], env).phase.Restarted?
    ensures var before, after, n := Run(trace, env).view, Run(trace + [Start], env).view, |trace|;
      var during := before.(status := Status.Retrying, calls := []);
      var actions := Performed(env.scripts(n), env.handlers, env.script(n), during);
      && after.status == Failed
      && (after.hasNewRequest <==> before.hasNewRequest || NewRequest in actions)
      && (after.index == -1 <==> before.index == -1 || CallStop in actions)
  {
    hide Run, Play, Performed, NextMove;
    RunSnoc(trace, Start, env);
    var st, n := Run(trace, env), |trace|;
    RestartIsFromRecheck(st, env);
    PlayLeaves(env.scripts(n), env.handlers, env.script(n), st.view.(status := Status.Retrying, calls := []));
  }

  lemma RestartIsFromRecheck(st: State, env: Env)
    ensures NextPhase(st, Start, env).Restarted? ==> st.phase.Rechecked?
  {}

  // ---------------------------------------------------------------- a stop made while retrying

  /**
   * A stop that Start makes during a retry does not end the request: the next pass runs all the same, and the
   * context is still stopped behind it exactly when there are no handlers, or one that the pass begins stops it.
   */
  lemma StopInRetryIsUndone(st: State, env: Env)
    requires st.phase.Restarted? && Stopped(st)
    ensures var t := Step(st, Pass, env);
      && NextMove(st, env).event == Pass && t.phase == Passed(st.phase.k + 1)
      && (Stopped(t) <==>
            env.handlers == 0
            || exists h :: 0 <= h < |Begins(t.view.calls)| && CallStop in env.scripts(st.count)(h))
  {
    hide PassOn, Begins;
    if env.handlers > 0 { PassStopsExactly(env.scripts(st.count), env.handlers); }
  }

  /** One handler that does nothing, one retry; Start asks for a request, and stops when it is called again. */
  const STOPPING := Env(1, 1,
    i => if i == 2 then [NewRequest] else if i == 6 then [CallStop] else [],
    _ => (_ => []), _ => false, (_, _) => false)

  /** The context as it is when the callbacks have done nothing but ask for a request. */
  function Quiet(phase: Phase, status: Status, asked: bool, calls: seq<Call>, count: nat, requests: nat): State {
    State(phase, View(0, status, asked, calls), 0, count, requests)
  }

  lemma BeginSteps()
    ensures Step(INITIAL, PreCheck, STOPPING) == Quiet(Checked, Uninit, false, [], 1, 0)
    ensures Step(Quiet(Checked, Uninit, false, [], 1, 0), PreStart, STOPPING) ==
            Quiet(PreStarted, Uninit, false, [], 2, 0)
  {}

  lemma StartStep()
    ensures Step(Quiet(PreStarted, Uninit, false, [], 2, 0), Start, STOPPING) == Quiet(Started, Uninit, true, [], 3, 0)
  {
    PlayOne(STOPPING.scripts(2), 1, NewRequest, View(0, Uninit, false, []));
  }

  lemma PassFails()
    ensures Step(Quiet(Started, Uninit, true, [], 3, 0), Pass, STOPPING) ==
            Quiet(Passed(1), Failed, false, [Begin(0)], 4, 1)
  {}

  lemma RetryBegins()
    ensures Step(Quiet(Passed(1), Failed, false, [Begin(0)], 4, 1), OnRetry, STOPPING) ==
            Quiet(Phase.Retrying(1), Failed, false, [], 5, 1)
    ensures Step(Quiet(Phase.Retrying(1), Failed, false, [], 5, 1), PreCheck, STOPPING) ==
            Quiet(Rechecked(1), Failed, false, [], 6, 1)
  {}

  lemma RetryStops()
    ensures Step(Quiet(Rechecked(1), Failed, false, [], 6, 1), Start, STOPPING) ==
            State(Restarted(1), View(-1, Failed, false, [StopCalled]), 1, 7, 1)
  {
    PlayOne(STOPPING.scripts(6), 1, CallStop, View(0, Status.Retrying, false, []));
  }

  /** A task in which that happens: the context is stopped before its second pass, and not behind it. */
  lemma StopInRetryHappens()
    ensures var before := Run([PreCheck, PreStart, Start, Pass, OnRetry, PreCheck, Start], STOPPING);
      && before.phase == Restarted(1) && Stopped(before)
      && !Stopped(Step(before, Pass, STOPPING))
  {
    hide Run, NextPhase, NextView;
    var t0: seq<Event>, t1, t2 := [], [PreCheck], [PreCheck, PreStart];
    var t3, t4 := t2 + [Start], t2 + [Start] + [Pass];
    var t5, t6 := t4 + [OnRetry], t4 + [OnRetry] + [PreCheck];
    assert t0 + [PreCheck] == t1 && t1 + [PreStart] == t2;
    assert t6 + [Start] == [PreCheck, PreStart, Start, Pass, OnRetry, PreCheck, Start];
    StartsEmpty(STOPPING);
    RunSnoc(t0, PreCheck, STOPPING);
    RunSnoc(t1, PreStart, STOPPING);
    RunSnoc(t2, Start, STOPPING);
    RunSnoc(t3, Pass, STOPPING);
    RunSnoc(t4, OnRetry, STOPPING);
    RunSnoc(t5, PreCheck, STOPPING);
    RunSnoc(t6, Start, STOPPING);
    BeginSteps();
    StartStep();
    PassFails();
    RetryBegins();
    RetryStops();
    StopInRetryIsUndone(Run(t6 + [Start], STOPPING), STOPPING);
  }

  lemma StartsEmpty(env: Env)
    ensures Run([], env) == INITIAL
  {}

  // ---------------------------------------------------------------- the engine

  /** The context is what the trace so far makes of it. */
  ghost predicate Tracks(ctx: ContextImpl<Event>, env: Env)
    reads ctx
  {
    && ctx.Valid() && ctx.handlers == env.handlers && ctx.maxRetryTimes == env.maxRetryTimes
    && Run(ctx.trace, env).view == ctx.AsView()
  }

  method Emit(ctx: ContextImpl<Event>, e: Event)
    modifies ctx`trace
    ensures ctx.trace == old(ctx.trace) + [e]
  {
    ctx.trace := ctx.trace + [e];
  }

  predicate IsCallback(e: Event) {
    e.PreCheck? || e.PreStart? || e.Start? || e.OnRetry? || e.OnFailed? || e.OnFinished?
  }

  /** One spider callback, with its event. */
  method Call(ctx: ContextImpl<Event>, e: Event, env: Env)
    requires Tracks(ctx, env) && IsCallback(e) && !(e.Start? && Run(ctx.trace, env).phase.Rechecked?)
    modifies ctx
    ensures Tracks(ctx, env) && ctx.trace == old(ctx.trace) + [e] && ctx.tryTimes == old(ctx.tryTimes)
    ensures Run(ctx.trace, env) == Step(old(Run(ctx.trace, env)), e, env)
    ensures old(ctx.IsStopped()) ==> ctx.IsStopped()
  {
    hide Run, NextPhase, Play;
    RunSnoc(ctx.trace, e, env);
    ctx.scripts := env.scripts(|ctx.trace|);
    ctx.Callback(env.script(|ctx.trace|));
    Emit(ctx, e);
  }

  /** `onRetry(spider.Start)`, with its event. */
  method CallStartAgain(ctx: ContextImpl<Event>, env: Env)
    requires Tracks(ctx, env) && Run(ctx.trace, env).phase.Rechecked?
    modifies ctx
    ensures Tracks(ctx, env) && ctx.tryTimes == old(ctx.tryTimes) + 1
    ensures Run(ctx.trace, env) == Step(old(Run(ctx.trace, env)), Start, env)
  {
    hide Run, NextPhase, Play;
    RunSnoc(ctx.trace, Start, env);
    ctx.scripts := env.scripts(|ctx.trace|);
    ctx.StartAgain(env.script(|ctx.trace|));
    Emit(ctx, Start);
  }

  method PassOnce(ctx: ContextImpl<Event>, env: Env)
    requires Tracks(ctx, env)
    modifies ctx
    ensures Tracks(ctx, env) && ctx.tryTimes == old(ctx.tryTimes)
    ensures Run(ctx.trace, env) == Step(old(Run(ctx.trace, env)), Pass, env)
  {
    hide Run, NextPhase, PassOn;
    RunSnoc(ctx.trace, Pass, env);
    ctx.scripts := env.scripts(|ctx.trace|);
    ctx.Do();
    Emit(ctx, Pass);
  }

  /** An event that leaves the context alone. */
  method Note(ctx: ContextImpl<Event>, e: Event, env: Env)
    requires Tracks(ctx, env) && (e.Cancelled? || e.Left? || e.Closed?)
    modifies ctx`trace
    ensures Tracks(ctx, env) && Run(ctx.trace, env) == Step(old(Run(ctx.trace, env)), e, env)
  {
    hide Run, NextPhase;
    RunSnoc(ctx.trace, e, env);
    Emit(ctx, e);
  }

  /** A first pass of a request may begin here, the checks having been passed. */
  predicate MayPass(st: State, env: Env) {
    && WantsPass(st)
    && (|| st.phase.Started?
        || (!env.leaves(st.requests) && (st.phase.Reported? || (RequestOver(st, env) && st.view.status != Failed))))
  }

  lemma PassStep(st: State, env: Env)
    ensures MayPass(st, env) ==> NextPhase(st, Pass, env) == Passed(1)
    ensures st.phase.Restarted? ==> NextPhase(st, Pass, env) == Passed(st.phase.k + 1)
  {}

  /** A retry is due: the loop gives up on a cancel, else it calls OnRetry, PreCheck and, unless stopped, Start. */
  lemma RetrySteps(st: State, k: nat, env: Env)
    ensures st.phase == Passed(k) && !RequestOver(st, env) ==>
      if env.cancels(st.requests, k) then NextPhase(st, Cancelled, env) == GaveUp
      else NextPhase(st, OnRetry, env) == Phase.Retrying(k)
    ensures st.phase == Phase.Retrying(k) ==> NextPhase(st, PreCheck, env) == Rechecked(k)
    ensures st.phase == Rechecked(k) && !Stopped(st) ==> NextPhase(st, Start, env) == Restarted(k)
  {}

  lemma RequestEnds(st: State, env: Env)
    ensures st.phase.Passed? ==>
      (RequestOver(st, env) <==> Stopped(st) || st.view.status != Failed || st.phase.k > env.maxRetryTimes)
    ensures st.phase == GaveUp || (st.phase.Rechecked? && Stopped(st)) ==> RequestOver(st, env)
  {}

  /** Between two passes of a request: whether it is tried again. */
  method Retry(ctx: ContextImpl<Event>, request: nat, env: Env) returns (again: bool)
    requires Tracks(ctx, env) && ctx.statusCode == Failed && !ctx.IsStopped() && ctx.tryTimes < ctx.maxRetryTimes
    requires Run(ctx.trace, env).phase == Passed(ctx.tryTimes + 1) && Run(ctx.trace, env).requests == request
    requires Run(ctx.trace, env).tryTimes == ctx.tryTimes
    modifies ctx
    ensures Tracks(ctx, env) && ctx.tryTimes == old(ctx.tryTimes) + (if again then 1 else 0)
    ensures var st := Run(ctx.trace, env);
      && st.requests == request && st.tryTimes == ctx.tryTimes
      && if again then st.phase == Restarted(ctx.tryTimes)
         else RequestOver(st, env) && (ctx.IsStopped() || st.phase == GaveUp)
  {
    hide NextPhase, NextView, RequestOver, Run;
    ghost var k, st := ctx.tryTimes + 1, Run(ctx.trace, env);
    RequestEnds(st, env);
    RetrySteps(st, k, env);
    if env.cancels(request, ctx.tryTimes + 1) {
      Note(ctx, Cancelled, env);
      RequestEnds(Run(ctx.trace, env), env);
      return false;
    }
    Call(ctx, OnRetry, env);
    RetrySteps(Run(ctx.trace, env), k, env);
    Call(ctx, PreCheck, env);
    if ctx.IsStopped() {
      RequestEnds(Run(ctx.trace, env), env);
      return false;
    }
    RetrySteps(Run(ctx.trace, env), k, env);
    CallStartAgain(ctx, env);
    return true;
  }

  /** The retry loop: it runs the passes of one request to their end. */
  method DoRetry(ctx: ContextImpl<Event>, request: nat, env: Env)
    requires Tracks(ctx, env) && ctx.tryTimes == 0 && ctx.maxRetryTimes > 0
    requires MayPass(Run(ctx.trace, env), env) && Run(ctx.trace, env).requests + 1 == request
    modifies ctx
    ensures Tracks(ctx, env) && ctx.tryTimes <= ctx.maxRetryTimes && Run(ctx.trace, env).tryTimes == ctx.tryTimes
    ensures RequestOver(Run(ctx.trace, env), env) && Run(ctx.trace, env).requests == request
    ensures ctx.statusCode == Failed ==> ctx.IsStopped() || ctx.IsMaxRetry() || Run(ctx.trace, env).phase == GaveUp
  {
    hide NextPhase, NextView, MayPass, RequestOver, Run;
    while true
      invariant Tracks(ctx, env) && ctx.tryTimes <= ctx.maxRetryTimes
      invariant var st := Run(ctx.trace, env);
        if ctx.tryTimes == 0 then MayPass(st, env) && st.requests + 1 == request
        else st.phase == Restarted(ctx.tryTimes) && st.requests == request && st.tryTimes == ctx.tryTimes
      decreases ctx.maxRetryTimes - ctx.tryTimes
    {
      PassStep(Run(ctx.trace, env), env);
      PassOnce(ctx, env);
      RequestEnds(Run(ctx.trace, env), env);
      if ctx.IsStopped() {
        return;
      }
      if ctx.statusCode == Failed {
        if ctx.tryTimes + 1 > ctx.maxRetryTimes {
          return;
        }
        var again := Retry(ctx, request, env);
        if !again {
          return;
        }
        continue;
      }
      return;
    }
  }

  lemma FirstSteps(st: State, env: Env)
    ensures st == INITIAL && !env.leaves(0) ==> NextPhase(st, PreCheck, env) == Checked
    ensures st.phase == Checked ==> NextPhase(st, PreStart, env) == PreStarted
    ensures st.phase == PreStarted ==>
      if Stopped(st) then NextPhase(st, OnFinished, env) == Finished else NextPhase(st, Start, env) == Started
    ensures st.phase == Started ==>
      if WantsPass(st) then MayPass(st, env) else NextPhase(st, OnFinished, env) == Finished
  {}

  /** The task loop may go round: a request is over and another pass is wanted. */
  predicate MayGoOn(st: State, env: Env) {
    WantsPass(st) && (st.phase.Reported? || (RequestOver(st, env) && st.view.status != Failed))
  }

  /** The top of the task loop: before the first request, or before another one. */
  predicate AtLoopHead(st: State, env: Env) { st == INITIAL || MayGoOn(st, env) }

  /** After a request: OnFailed if it ended Failed, then OnFinished unless another pass is wanted. */
  lemma LastSteps(st: State, env: Env)
    ensures RequestOver(st, env) && st.view.status == Failed ==> NextPhase(st, OnFailed, env) == Reported
    ensures st.phase == Reported || (RequestOver(st, env) && st.view.status != Failed) ==>
      if WantsPass(st) then MayGoOn(st, env) else NextPhase(st, OnFinished, env) == Finished
    ensures st == INITIAL && env.leaves(0) ==> NextPhase(st, Left, env) == Leaving
    ensures MayGoOn(st, env) ==>
      if env.leaves(st.requests) then NextPhase(st, Left, env) == Leaving else MayPass(st, env)
    ensures st.phase == Finished || st.phase == Leaving ==> NextPhase(st, Closed, env) == Done
  {}

  /** A single pass, when retrying is not configured, ends its request. */
  lemma SinglePassEnds(st: State, env: Env)
    requires env.maxRetryTimes <= 0 && st.phase == Passed(1)
    ensures RequestOver(st, env)
  {}

  /** The passes of one request, with or without retries. */
  method DoRequest(ctx: ContextImpl<Event>, request: nat, env: Env)
    requires Tracks(ctx, env) && ctx.tryTimes == 0
    requires MayPass(Run(ctx.trace, env), env) && Run(ctx.trace, env).requests + 1 == request
    modifies ctx
    ensures Tracks(ctx, env) && Run(ctx.trace, env).tryTimes == ctx.tryTimes
    ensures RequestOver(Run(ctx.trace, env), env) && Run(ctx.trace, env).requests == request
  {
    hide NextPhase, NextView, MayPass, RequestOver, Run;
    if ctx.maxRetryTimes > 0 {
      DoRetry(ctx, request, env);
    } else {
      PassStep(Run(ctx.trace, env), env);
      PassOnce(ctx, env);
      SinglePassEnds(Run(ctx.trace, env), env);
    }
  }

  /** PreCheck, PreStart and Start, at the beginning of a task; whether the task goes on to a request. */
  method BeginTask(ctx: ContextImpl<Event>, env: Env) returns (goOn: bool)
    requires Tracks(ctx, env) && ctx.tryTimes == 0 && Run(ctx.trace, env) == INITIAL && !env.leaves(0)
    modifies ctx
    ensures Tracks(ctx, env) && ctx.tryTimes == 0
    ensures var st := Run(ctx.trace, env);
      if goOn then MayPass(st, env) && st.requests == 0 else st.phase == Finished
  {
    hide NextPhase, NextView, MayPass, Run;
    FirstSteps(Run(ctx.trace, env), env);
    Call(ctx, PreCheck, env);
    FirstSteps(Run(ctx.trace, env), env);
    Call(ctx, PreStart, env);
    FirstSteps(Run(ctx.trace, env), env);
    if ctx.IsStopped() {
      Call(ctx, OnFinished, env);
      return false;
    }
    Call(ctx, Start, env);
    FirstSteps(Run(ctx.trace, env), env);
    if !ctx.hasNewRequest || ctx.IsStopped() {
      Call(ctx, OnFinished, env);
      return false;
    }
    return true;
  }

  /** The end of a request: OnFailed if it ended Failed, and OnFinished unless another pass is wanted. */
  method EndRequest(ctx: ContextImpl<Event>, env: Env) returns (goOn: bool)
    requires Tracks(ctx, env) && RequestOver(Run(ctx.trace, env), env)
    modifies ctx
    ensures Tracks(ctx, env)
    ensures var st := Run(ctx.trace, env);
      if goOn then MayGoOn(st, env) && st.requests == old(Run(ctx.trace, env).requests) else st.phase == Finished
  {
    hide NextPhase, NextView, MayGoOn, RequestOver, Run;
    LastSteps(Run(ctx.trace, env), env);
    if ctx.statusCode == Failed {
      Call(ctx, OnFailed, env);
      LastSteps(Run(ctx.trace, env), env);
    }
    if !ctx.hasNewRequest || ctx.IsStopped() {
      Call(ctx, OnFinished, env);
      return false;
    }
    return true;
  }

  /**
   * The first `rounds` rounds of the task loop, and whether it is over by then: callbacks may ask for another
   * request for ever. If it is not over, every round was a request and another one is wanted.
   */
  method TaskLoop(ctx: ContextImpl<Event>, env: Env, rounds: nat) returns (over: bool)
    requires Tracks(ctx, env) && ctx.tryTimes == 0 && ctx.trace == []
    modifies ctx
    ensures Tracks(ctx, env)
    ensures var st := Run(ctx.trace, env);
      if over then st.phase == Finished || st.phase == Leaving else st.requests == rounds && AtLoopHead(st, env)
  {
    hide NextPhase, NextView, MayPass, MayGoOn, RequestOver;
    var start := false;
    var round := 0;
    while round < rounds
      invariant Tracks(ctx, env) && ctx.tryTimes == 0 && round <= rounds
      invariant var st := Run(ctx.trace, env);
        st.requests == round && if start then MayGoOn(st, env) else round == 0 && st == INITIAL
    {
      LastSteps(Run(ctx.trace, env), env);
      if env.leaves(round) {
        Note(ctx, Left, env);
        return true;
      }
      if !start {
        var goOn := BeginTask(ctx, env);
        if !goOn {
          return true;
        }
        start := true;
      }
      round := round + 1;
      DoRequest(ctx, round, env);
      var goOn := EndRequest(ctx, env);
      if !goOn {
        return true;
      }
      ctx.tryTimes := 0;
    }
    return false;
  }

  /**
   * Runs one task, for at most `rounds` requests. Whatever handlers and callbacks do and whatever the checks see,
   * its events are a run of the trace language for that environment, complete exactly when the task is over.
   */
  method DoTask(env: Env, rounds: nat) returns (ctx: ContextImpl<Event>, over: bool)
    ensures Tracks(ctx, env) && !Run(ctx.trace, env).phase.Bad?
    ensures over <==> Run(ctx.trace, env).phase == Done
    ensures !over ==> Run(ctx.trace, env).requests == rounds && AtLoopHead(Run(ctx.trace, env), env)
    ensures forall s :: Run(s, env).phase == Done && Run(s, env).requests < rounds ==> over && ctx.trace == s
  {
    hide NextPhase, NextView;
    ctx := new ContextImpl<Event>(env.handlers, env.maxRetryTimes);
    over := TaskLoop(ctx, env, rounds);
    if over {
      LastSteps(Run(ctx.trace, env), env);
      Note(ctx, Closed, env);
    }
    forall s | Run(s, env).phase == Done ensures Run(s, env).requests < rounds ==> over && ctx.trace == s {
      CompleteRunIsUnique(s, ctx.trace, env);
      EnoughRounds(s, ctx.trace, env);
    }
  }
}
