/**
 * The middleware chain of spider/context.go. Handlers and spider callbacks are arbitrary: a script of context
 * calls stands for what one invocation does, and every theorem holds of all scripts.
 */
module SpiderChain {
  import opened Basics

  datatype Status = Failed | Ok | Skipped | Retrying | Uninit

  /** What a handler or a callback may do with its context. */
  datatype Action = CallNext | CallStop | SetOk | SetFailed | SetSkipped | NewRequest

  /** What each handler does when it is invoked; in one pass it is invoked at most once. */
  type Scripts = nat -> seq<Action>

  /** The calls that matter to the chain, as they happen. */
  datatype Call = Begin(handler: nat) | NextCalled | StopCalled

  /** The part of a context that handlers can change: -1 is the index of a stopped chain. */
  datatype View = View(index: int, status: Status, hasNewRequest: bool, calls: seq<Call>)

  // ---------------------------------------------------------------- what scripts do

  /** How many handlers may still begin; nothing a script does makes it grow. */
  function Room(n: nat, v: View): nat {
    if v.index < 0 || n < v.index then 0 else n - v.index
  }

  function Act(scripts: Scripts, n: nat, a: Action, v: View): (w: View)
    requires v.index >= -1
    ensures w.index >= -1 && Room(n, w) <= Room(n, v)
    decreases Room(n, v), 1
  {
    match a
    case CallNext => NextOn(scripts, n, v)
    case CallStop => v.(index := -1, calls := v.calls + [StopCalled])
    case SetOk => v.(status := Ok)
    case SetFailed => v.(status := Failed)
    case SetSkipped => v.(status := Skipped)
    case NewRequest => v.(hasNewRequest := true)
  }

  /** The actions of a script, one after the other. */
  function Play(scripts: Scripts, n: nat, script: seq<Action>, v: View): (w: View)
    requires v.index >= -1
    ensures w.index >= -1 && Room(n, w) <= Room(n, v)
    decreases Room(n, v), 2, |script|
  {
    if script == [] then v else Play(scripts, n, script[1..], Act(scripts, n, script[0], v))
  }

  /** A Next call runs the whole of the next handler before it returns. */
  function NextOn(scripts: Scripts, n: nat, v: View): (w: View)
    requires v.index >= -1
    ensures w.index >= -1 && Room(n, w) <= Room(n, v)
    decreases Room(n, v), 0
  {
    var called := v.(calls := v.calls + [NextCalled]);
    if v.index == -1 || v.index + 1 >= n then called else HandlerOn(scripts, n, v.index + 1, called)
  }

  function HandlerOn(scripts: Scripts, n: nat, h: nat, v: View): (w: View)
    requires h < n
    ensures w.index >= -1 && Room(n, w) <= n - h
    decreases n - h, 3
  {
    Play(scripts, n, scripts(h), v.(index := h, calls := v.calls + [Begin(h)]))
  }

  /** One pass of the pipeline over `n` handlers. */
  function PassOn(scripts: Scripts, n: nat): View
    requires n > 0
  {
    HandlerOn(scripts, n, 0, View(0, Failed, false, []))
  }

  lemma PlayOne(scripts: Scripts, n: nat, a: Action, v: View)
    requires v.index >= -1
    ensures Play(scripts, n, [a], v) == Act(scripts, n, a, v)
  {
    assert [a][1..] == [];
  }

  // ---------------------------------------------------------------- the chain language

  /** Where a chain is: the next handler to begin, whether it was stopped, and whether that handler must begin now. */
  datatype Chain = Broken | Chain(begun: nat, stopped: bool, due: bool)

  const PASS_START := Chain(0, false, true)

  /** A live Next begins the next handler at once, and nothing else begins one. */
  function Follow(c: Chain, call: Call, n: nat): Chain {
    match c
    case Broken => Broken
    case Chain(begun, stopped, due) =>
      match call
      case Begin(h) => if due && h == begun then Chain(begun + 1, stopped, false) else Broken
      case NextCalled => if due then Broken else Chain(begun, stopped, !stopped && begun < n)
      case StopCalled => if due then Broken else Chain(begun, true, false)
  }

  function Replay(log: seq<Call>, n: nat): Chain {
    if log == [] then PASS_START else Follow(Replay(log[..|log| - 1], n), log[|log| - 1], n)
  }

  lemma ReplaySnoc(log: seq<Call>, call: Call, n: nat)
    ensures Replay(log + [call], n) == Follow(Replay(log, n), call, n)
  {
    assert (log + [call])[..|log|] == log;
  }

  /** The calls so far are in the language, and the index says where the chain is. */
  predicate InLanguage(n: nat, v: View) {
    var c := Replay(v.calls, n);
    c.Chain? && !c.due && (c.stopped <==> v.index == -1) && (!c.stopped ==> v.index == c.begun - 1)
  }

  lemma {:induction false} ActStaysInLanguage(scripts: Scripts, n: nat, a: Action, v: View)
    requires v.index >= -1 && InLanguage(n, v)
    ensures InLanguage(n, Act(scripts, n, a, v))
    decreases Room(n, v), 1
  {
    match a {
      case CallNext =>
        ReplaySnoc(v.calls, NextCalled, n);
        if v.index != -1 && v.index + 1 < n {
          HandlerStaysInLanguage(scripts, n, v.index + 1, v.(calls := v.calls + [NextCalled]));
        }
      case CallStop => ReplaySnoc(v.calls, StopCalled, n);
      case _ =>
    }
  }

  lemma {:induction false} PlayStaysInLanguage(scripts: Scripts, n: nat, script: seq<Action>, v: View)
    requires v.index >= -1 && InLanguage(n, v)
    ensures InLanguage(n, Play(scripts, n, script, v))
    decreases Room(n, v), 2, |script|
  {
    if script != [] {
      ActStaysInLanguage(scripts, n, script[0], v);
      PlayStaysInLanguage(scripts, n, script[1..], Act(scripts, n, script[0], v));
    }
  }

  lemma {:induction false} HandlerStaysInLanguage(scripts: Scripts, n: nat, h: nat, v: View)
    requires h < n && Replay(v.calls, n) == Chain(h, false, true)
    ensures InLanguage(n, HandlerOn(scripts, n, h, v))
    decreases n - h, 3
  {
    ReplaySnoc(v.calls, Begin(h), n);
    PlayStaysInLanguage(scripts, n, scripts(h), v.(index := h, calls := v.calls + [Begin(h)]));
  }

  // ---------------------------------------------------------------- what the language says

  /** The handlers begun, in order. */
  function Begins(log: seq<Call>): seq<nat> {
    if log == [] then []
    else
      var init := Begins(log[..|log| - 1]);
      match log[|log| - 1]
      case Begin(h) => init + [h]
      case _ => init
  }

  function Upto(k: nat): seq<nat> { seq(k, i => i) }

  /** The Next calls made before any StopExecution. */
  function LiveNexts(log: seq<Call>): nat {
    if log == [] then 0
    else
      var init := log[..|log| - 1];
      LiveNexts(init) + (if log[|log| - 1].NextCalled? && StopCalled !in init then 1 else 0)
  }

  lemma {:induction false} LanguageIsInOrder(log: seq<Call>, n: nat)
    requires n > 0 && Replay(log, n).Chain?
    ensures var c := Replay(log, n);
      && Begins(log) == Upto(c.begun)
      && c.begun + (if c.due then 1 else 0) == Min(n, 1 + LiveNexts(log))
      && (c.stopped <==> StopCalled in log) && (c.stopped ==> !c.due)
  {
    if log != [] {
      var init := log[..|log| - 1];
      LanguageIsInOrder(init, n);
      assert log == init + [log[|log| - 1]];
      var k := Replay(init, n).begun;
      assert Upto(k + 1) == Upto(k) + [k];
    }
  }

  lemma {:induction false} LanguageStops(log: seq<Call>, n: nat, i: nat, j: nat)
    requires n > 0 && Replay(log, n).Chain?
    requires i < j < |log| && log[i].StopCalled?
    ensures !log[j].Begin?
  {
    var init := log[..|log| - 1];
    if j < |log| - 1 {
      LanguageStops(init, n, i, j);
    } else {
      LanguageIsInOrder(init, n);
      assert init[i] == StopCalled;
    }
  }

  /**
   * Whatever the handlers do and however often each calls Next, a pass begins exactly the handlers 0, 1, ..., k,
   * in order and once each, k being the number of live Next calls as far as there are handlers; and it ends
   * stopped exactly when some invoked handler stopped it.
   */
  lemma PassBeginsHandlersInOrder(scripts: Scripts, n: nat)
    requires n > 0
    ensures var v := PassOn(scripts, n);
      && Begins(v.calls) == Upto(Min(n, 1 + LiveNexts(v.calls)))
      && (v.index == -1 <==> StopCalled in v.calls)
  {
    HandlerStaysInLanguage(scripts, n, 0, View(0, Failed, false, []));
    LanguageIsInOrder(PassOn(scripts, n).calls, n);
  }

  /** In no pass does a handler begin after a StopExecution. */
  lemma NoneBeginsAfterStop(scripts: Scripts, n: nat, i: nat, j: nat)
    requires n > 0 && i < j < |PassOn(scripts, n).calls| && PassOn(scripts, n).calls[i].StopCalled?
    ensures !PassOn(scripts, n).calls[j].Begin?
  {
    HandlerStaysInLanguage(scripts, n, 0, View(0, Failed, false, []));
    LanguageStops(PassOn(scripts, n).calls, n, i, j);
  }

  // ---------------------------------------------------------------- which scripts stop a pass

  /** Some handler begun in this log stops the context when it is invoked. */
  ghost predicate BeginsStopper(scripts: Scripts, log: seq<Call>) {
    exists h: nat :: Begin(h) in log && CallStop in scripts(h)
  }

  /** From `log` on, the calls `more` were made, of which a script made the stops that are its own. */
  ghost predicate Explains(scripts: Scripts, v: View, w: View, own: bool) {
    && v.calls <= w.calls
    && (StopCalled in w.calls <==>
          StopCalled in v.calls || own || BeginsStopper(scripts, w.calls[|v.calls|..]))
  }

  lemma ExplainsNothing(scripts: Scripts, v: View, w: View)
    requires w.calls == v.calls
    ensures Explains(scripts, v, w, false)
  {}

  lemma ExplainsStop(scripts: Scripts, v: View, w: View)
    requires w.calls == v.calls + [StopCalled]
    ensures Explains(scripts, v, w, true)
  {}

  lemma ExplainsNext(scripts: Scripts, v: View, w: View)
    requires w.calls == v.calls + [NextCalled]
    ensures Explains(scripts, v, w, false)
  {
    assert w.calls[|v.calls|..] == [NextCalled];
  }

  predicate CanBegin(n: nat, v: View) { v.index != -1 && v.index + 1 < n }

  /** A live Next begins the next handler and runs its script. */
  function Begun(v: View): View
    requires v.index >= -1
  {
    v.(index := v.index + 1, calls := v.calls + [NextCalled] + [Begin(v.index + 1)])
  }

  lemma NextIsHandler(scripts: Scripts, n: nat, v: View)
    requires v.index >= -1 && CanBegin(n, v)
    ensures Act(scripts, n, CallNext, v) == HandlerOn(scripts, n, v.index + 1, v.(calls := v.calls + [NextCalled]))
    ensures Act(scripts, n, CallNext, v) == Play(scripts, n, scripts(v.index + 1), Begun(v))
  {
    var called, h := v.(calls := v.calls + [NextCalled]), v.index + 1;
    assert NextOn(scripts, n, v) == HandlerOn(scripts, n, h, called);
    assert called.(index := h, calls := called.calls + [Begin(h)]) == Begun(v);
  }

  lemma ExplainsBoth(scripts: Scripts, u: View, v: View, w: View, a: bool, b: bool)
    requires Explains(scripts, u, v, a) && Explains(scripts, v, w, b)
    ensures Explains(scripts, u, w, a || b)
  {
    assert w.calls[|u.calls|..] == v.calls[|u.calls|..] + w.calls[|v.calls|..];
  }

  lemma {:induction false} ActExplains(scripts: Scripts, n: nat, a: Action, v: View)
    requires v.index >= -1
    ensures Explains(scripts, v, Act(scripts, n, a, v), a == CallStop)
    decreases Room(n, v), 1
  {
    hide Explains;
    var w := Act(scripts, n, a, v);
    match a {
      case CallNext =>
        var called := v.(calls := v.calls + [NextCalled]);
        ExplainsNext(scripts, v, called);
        if CanBegin(n, v) {
          NextIsHandler(scripts, n, v);
          HandlerExplains(scripts, n, v.index + 1, called);
          ExplainsBoth(scripts, v, called, w, false, false);
        }
      case CallStop => ExplainsStop(scripts, v, w);
      case _ => ExplainsNothing(scripts, v, w);
    }
  }

  lemma {:induction false} PlayExplains(scripts: Scripts, n: nat, script: seq<Action>, v: View)
    requires v.index >= -1
    ensures Explains(scripts, v, Play(scripts, n, script, v), CallStop in script)
    decreases Room(n, v), 2, |script|
  {
    hide Explains;
    if script == [] {
      ExplainsNothing(scripts, v, v);
    } else {
      var next := Act(scripts, n, script[0], v);
      ActExplains(scripts, n, script[0], v);
      PlayExplains(scripts, n, script[1..], next);
      ExplainsBoth(scripts, v, next, Play(scripts, n, script, v), script[0] == CallStop, CallStop in script[1..]);
      assert script == [script[0]] + script[1..];
    }
  }

  lemma {:induction false} HandlerExplains(scripts: Scripts, n: nat, h: nat, v: View)
    requires h < n
    ensures Explains(scripts, v, HandlerOn(scripts, n, h, v), false)
    decreases n - h, 3
  {
    var begun := v.(index := h, calls := v.calls + [Begin(h)]);
    var w := Play(scripts, n, scripts(h), begun);
    PlayExplains(scripts, n, scripts(h), begun);
    assert w.calls[|v.calls|..] == [Begin(h)] + w.calls[|begun.calls|..];
  }

  lemma {:induction false} BeginIsIn(log: seq<Call>, h: nat)
    ensures Begin(h) in log <==> h in Begins(log)
  {
    if log != [] {
      var init, last := log[..|log| - 1], log[|log| - 1];
      BeginIsIn(init, h);
      assert log == init + [last];
    }
  }

  /** A pass ends stopped exactly when one of the handlers it begins stops the context, early or late. */
  lemma PassStopsExactly(scripts: Scripts, n: nat)
    requires n > 0
    ensures var v := PassOn(scripts, n);
      v.index == -1 <==> exists h :: 0 <= h < |Begins(v.calls)| && CallStop in scripts(h)
  {
    var start, v := View(0, Failed, false, []), PassOn(scripts, n);
    HandlerExplains(scripts, n, 0, start);
    assert v.calls[0..] == v.calls;
    PassBeginsHandlersInOrder(scripts, n);
    forall h: nat ensures Begin(h) in v.calls <==> h < |Begins(v.calls)| {
      BeginIsIn(v.calls, h);
      assert h < |Begins(v.calls)| ==> Begins(v.calls)[h] == h;
    }
  }

  // ---------------------------------------------------------------- handlers begun by callbacks

  /** A script calls Next before it stops the context, if it does. */
  ghost predicate CallsNextFirst(script: seq<Action>) {
    exists j :: 0 <= j < |script| && script[j].CallNext? && CallStop !in script[..j]
  }

  lemma CallsNextFirstCons(a: Action, script: seq<Action>)
    ensures CallsNextFirst([a] + script) <==> a.CallNext? || (!a.CallStop? && CallsNextFirst(script))
  {
    var all := [a] + script;
    if a.CallNext? {
      assert all[0].CallNext? && CallStop !in all[..0];
    }
    if !a.CallStop? && CallsNextFirst(script) {
      var j :| 0 <= j < |script| && script[j].CallNext? && CallStop !in script[..j];
      assert all[j + 1].CallNext? && all[..j + 1] == [a] + script[..j];
    }
    if CallsNextFirst(all) && !a.CallNext? {
      var j :| 0 <= j < |all| && all[j].CallNext? && CallStop !in all[..j];
      assert all[..j] == [a] + script[..j - 1] && script[j - 1].CallNext?;
    }
  }

  /** Calls that are added keep what was begun. */
  lemma BeginsGrow(log: seq<Call>, more: seq<Call>)
    requires log <= more && Begins(log) != []
    ensures Begins(more) != []
  {
    BeginIsIn(log, Begins(log)[0]);
    BeginIsIn(more, Begins(log)[0]);
  }

  /** One action begins a handler exactly when it is a Next of a live chain with a handler to come. */
  lemma ActBegins(scripts: Scripts, n: nat, a: Action, v: View)
    requires v.index >= -1 && Begins(v.calls) == []
    ensures var w := Act(scripts, n, a, v);
      && (Begins(w.calls) != [] <==> a.CallNext? && CanBegin(n, v))
      && (Begins(w.calls) == [] ==> (CanBegin(n, w) <==> CanBegin(n, v) && !a.CallStop?))
  {
    hide Play, HandlerOn;
    var w := Act(scripts, n, a, v);
    assert (v.calls + [NextCalled])[..|v.calls|] == v.calls;
    assert (v.calls + [StopCalled])[..|v.calls|] == v.calls;
    if a.CallNext? && CanBegin(n, v) {
      NextIsHandler(scripts, n, v);
      NextBegins(scripts, n, v);
    }
  }

  lemma NextBegins(scripts: Scripts, n: nat, v: View)
    requires v.index >= -1 && CanBegin(n, v)
    ensures v.index + 1 in Begins(Act(scripts, n, CallNext, v).calls)
  {
    hide Play, HandlerOn, Act;
    NextIsHandler(scripts, n, v);
    var h := v.index + 1;
    var w := Play(scripts, n, scripts(h), Begun(v));
    PlayExplains(scripts, n, scripts(h), Begun(v));
    assert Begun(v).calls[|v.calls| + 1] == Begin(h) == w.calls[|v.calls| + 1];
    BeginIsIn(w.calls, h);
  }

  lemma {:induction false} PlayBegins(scripts: Scripts, n: nat, script: seq<Action>, v: View)
    requires v.index >= -1 && Begins(v.calls) == []
    ensures Begins(Play(scripts, n, script, v).calls) != [] <==> CanBegin(n, v) && CallsNextFirst(script)
  {
    if script != [] {
      var next := Act(scripts, n, script[0], v);
      ActBegins(scripts, n, script[0], v);
      CallsNextFirstCons(script[0], script[1..]);
      assert script == [script[0]] + script[1..];
      if Begins(next.calls) == [] {
        PlayBegins(scripts, n, script[1..], next);
      } else {
        PlayExplains(scripts, n, script[1..], next);
        BeginsGrow(next.calls, Play(scripts, n, script, v).calls);
      }
    }
  }

  /**
   * A callback begins a handler exactly when the chain is live with a handler to come, and the callback calls Next
   * before any StopExecution of its own.
   */
  lemma CallbackBeginsExactly(scripts: Scripts, n: nat, script: seq<Action>, v: View)
    requires v.index >= -1
    ensures Begins(Play(scripts, n, script, v.(calls := [])).calls) != []
      <==> v.index != -1 && v.index + 1 < n
           && exists j :: 0 <= j < |script| && script[j].CallNext? && CallStop !in script[..j]
  {
    PlayBegins(scripts, n, script, v.(calls := []));
  }

  /** A callback of a fresh task that calls Next, with two handlers: the second one begins, outside any pass. */
  lemma CallbackBeginsHandler(scripts: Scripts, n: nat)
    requires n > 1
    ensures 1 in Begins(Play(scripts, n, [CallNext], View(0, Uninit, false, [])).calls)
  {
    hide Act;
    var start := View(0, Uninit, false, []);
    PlayOne(scripts, n, CallNext, start);
    NextBegins(scripts, n, start);
  }

  // ---------------------------------------------------------------- what the last action leaves

  lemma {:induction false} PlaySnoc(scripts: Scripts, n: nat, script: seq<Action>, a: Action, v: View)
    requires v.index >= -1
    ensures Play(scripts, n, script + [a], v) == Act(scripts, n, a, Play(scripts, n, script, v))
  {
    if script == [] {
      assert script + [a] == [a];
      PlayOne(scripts, n, a, v);
    } else {
      assert (script + [a])[1..] == script[1..] + [a];
      PlaySnoc(scripts, n, script[1..], a, Act(scripts, n, script[0], v));
    }
  }

  /**
   * What a script's last action does to the context, whatever went before: it sets the status it names, asks for a
   * request, or stops the chain, and nothing else; a Next that begins no handler leaves all as it is.
   */
  lemma LastActionCounts(scripts: Scripts, n: nat, script: seq<Action>, v: View)
    requires v.index >= -1
    ensures var w := Play(scripts, n, script, v);
      && Play(scripts, n, script + [SetOk], v) == View(w.index, Ok, w.hasNewRequest, w.calls)
      && Play(scripts, n, script + [SetFailed], v) == View(w.index, Failed, w.hasNewRequest, w.calls)
      && Play(scripts, n, script + [SetSkipped], v) == View(w.index, Skipped, w.hasNewRequest, w.calls)
      && Play(scripts, n, script + [NewRequest], v) == View(w.index, w.status, true, w.calls)
      && Play(scripts, n, script + [CallStop], v) == View(-1, w.status, w.hasNewRequest, w.calls + [StopCalled])
      && (!CanBegin(n, w) ==>
            Play(scripts, n, script + [CallNext], v) ==
            View(w.index, w.status, w.hasNewRequest, w.calls + [NextCalled]))
      && (CanBegin(n, w) ==>
            Play(scripts, n, script + [CallNext], v) == Play(scripts, n, scripts(w.index + 1), Begun(w)))
  {
    hide Play;
    var w := Play(scripts, n, script, v);
    PlaySnoc(scripts, n, script, SetOk, v);
    PlaySnoc(scripts, n, script, SetFailed, v);
    PlaySnoc(scripts, n, script, SetSkipped, v);
    PlaySnoc(scripts, n, script, NewRequest, v);
    PlaySnoc(scripts, n, script, CallStop, v);
    PlaySnoc(scripts, n, script, CallNext, v);
    if CanBegin(n, w) { NextIsHandler(scripts, n, w); }
  }

  /** All actions performed while a script runs, those of the handlers it begins where they begin. */
  function Performed(scripts: Scripts, n: nat, script: seq<Action>, v: View): seq<Action>
    requires v.index >= -1
    decreases Room(n, v), 2, |script|
  {
    if script == [] then []
    else
      var a := script[0];
      var nested :=
        if a == CallNext && CanBegin(n, v) then Performed(scripts, n, scripts(v.index + 1), Begun(v)) else [];
      [a] + nested + Performed(scripts, n, script[1..], Act(scripts, n, a, v))
  }

  /** Every action of a script is performed, wherever the chain is. */
  lemma {:induction false} ScriptIsPerformed(scripts: Scripts, n: nat, script: seq<Action>, v: View, a: Action)
    requires v.index >= -1 && a in script
    ensures a in Performed(scripts, n, script, v)
    decreases |script|
  {
    if a != script[0] { ScriptIsPerformed(scripts, n, script[1..], Act(scripts, n, script[0], v), a); }
  }

  /** The status that the last of the actions with one sets; `before` if there is none. */
  function LastStatus(actions: seq<Action>, before: Status): Status {
    if actions == [] then before
    else
      match actions[|actions| - 1]
      case SetOk => Ok
      case SetFailed => Failed
      case SetSkipped => Skipped
      case _ => LastStatus(actions[..|actions| - 1], before)
  }

  lemma {:induction false} LastStatusConcat(a: seq<Action>, b: seq<Action>, before: Status)
    ensures LastStatus(a + b, before) == LastStatus(b, LastStatus(a, before))
  {
    if b == [] {
      assert a + b == a;
    } else {
      assert (a + b)[..|a + b| - 1] == a + b[..|b| - 1];
      LastStatusConcat(a, b[..|b| - 1], before);
    }
  }

  /** Status, request and stop are those that the actions performed leave behind. */
  ghost predicate Leaves(v: View, w: View, actions: seq<Action>) {
    && w.status == LastStatus(actions, v.status)
    && (w.hasNewRequest <==> v.hasNewRequest || NewRequest in actions)
    && (w.index == -1 <==> v.index == -1 || CallStop in actions)
  }

  lemma LeavesBoth(u: View, v: View, w: View, a: seq<Action>, b: seq<Action>)
    requires Leaves(u, v, a) && Leaves(v, w, b)
    ensures Leaves(u, w, a + b)
  {
    LastStatusConcat(a, b, u.status);
  }

  lemma OneActionLeaves(scripts: Scripts, n: nat, a: Action, v: View)
    requires v.index >= -1
    ensures !(a.CallNext? && CanBegin(n, v)) ==> Leaves(v, Act(scripts, n, a, v), [a])
    ensures a.CallNext? && CanBegin(n, v) ==> Leaves(v, Begun(v), [a])
  {
    assert [a][..0] == [];
  }

  lemma {:induction false} PlayLeaves(scripts: Scripts, n: nat, script: seq<Action>, v: View)
    requires v.index >= -1
    ensures Leaves(v, Play(scripts, n, script, v), Performed(scripts, n, script, v))
    decreases Room(n, v), 2, |script|
  {
    hide Leaves;
    if script == [] {
      NoneLeaves(v);
    } else {
      var a := script[0];
      var next, rest := Act(scripts, n, a, v), Performed(scripts, n, script[1..], Act(scripts, n, a, v));
      OneActionLeaves(scripts, n, a, v);
      PlayLeaves(scripts, n, script[1..], next);
      if a == CallNext && CanBegin(n, v) {
        var nested := Performed(scripts, n, scripts(v.index + 1), Begun(v));
        NextIsHandler(scripts, n, v);
        PlayLeaves(scripts, n, scripts(v.index + 1), Begun(v));
        LeavesBoth(v, Begun(v), next, [a], nested);
        LeavesBoth(v, next, Play(scripts, n, script, v), [a] + nested, rest);
      } else {
        LeavesBoth(v, next, Play(scripts, n, script, v), [a], rest);
        assert [a] + [] + rest == [a] + rest;
      }
    }
  }

  lemma NoneLeaves(v: View)
    ensures Leaves(v, v, [])
  {}

  /** The actions of one pass: those of the first handler, with all that it begins. */
  function PassActions(scripts: Scripts, n: nat): seq<Action>
    requires n > 0
  {
    Performed(scripts, n, scripts(0), View(0, Failed, false, [Begin(0)]))
  }

  /**
   * A pass ends with the last status that a handler set in it, Failed when none did; it asks for a request, or is
   * stopped, exactly when a handler asked for one, or stopped it, in this pass.
   */
  lemma PassLeavesWhatHandlersDo(scripts: Scripts, n: nat)
    requires n > 0
    ensures var v, actions := PassOn(scripts, n), PassActions(scripts, n);
      && v.status == LastStatus(actions, Failed)
      && (v.hasNewRequest <==> NewRequest in actions)
      && (v.index == -1 <==> CallStop in actions)
  {
    PlayLeaves(scripts, n, scripts(0), View(0, Failed, false, [Begin(0)]));
    assert [] + [Begin(0)] == [Begin(0)];
  }

  // ---------------------------------------------------------------- what stays

  /** Nothing a script does un-stops a context, or takes back a new request. */
  lemma {:induction false} PlayIsSticky(scripts: Scripts, n: nat, script: seq<Action>, v: View)
    requires v.index >= -1
    ensures v.index == -1 ==> Play(scripts, n, script, v).index == -1
    ensures v.hasNewRequest ==> Play(scripts, n, script, v).hasNewRequest
    decreases Room(n, v), 2, |script|
  {
    if script != [] {
      ActIsSticky(scripts, n, script[0], v);
      PlayIsSticky(scripts, n, script[1..], Act(scripts, n, script[0], v));
    }
  }

  lemma {:induction false} ActIsSticky(scripts: Scripts, n: nat, a: Action, v: View)
    requires v.index >= -1
    ensures v.index == -1 ==> Act(scripts, n, a, v).index == -1
    ensures v.hasNewRequest ==> Act(scripts, n, a, v).hasNewRequest
    decreases Room(n, v), 1
  {
    if a.CallNext? && v.index != -1 && v.index + 1 < n {
      var h: nat := v.index + 1;
      var w := v.(index := h, calls := v.calls + [NextCalled] + [Begin(h)]);
      assert NextOn(scripts, n, v) == Play(scripts, n, scripts(h), w);
      PlayIsSticky(scripts, n, scripts(h), w);
    }
  }

  // ---------------------------------------------------------------- the context

  class ContextImpl<Event> {
    const handlers: nat
    const maxRetryTimes: int
    var currentHandlerIndex: int
    var statusCode: Status
    var hasNewRequest: bool
    var tryTimes: nat
    /** What the handlers will do, if they are invoked. */
    var scripts: Scripts
    /** The calls of the current pass, or of the current callback. */
    ghost var calls: seq<Call>
    /** The events of the task so far; no handler touches them. */
    var trace: seq<Event>

    ghost predicate Valid()
      reads this
    {
      currentHandlerIndex >= -1
    }

    ghost function AsView(): View
      reads this
    {
      View(currentHandlerIndex, statusCode, hasNewRequest, calls)
    }

    constructor (handlers: nat, maxRetryTimes: int)
      ensures Valid() && this.handlers == handlers && this.maxRetryTimes == maxRetryTimes
      ensures statusCode == Uninit && !hasNewRequest && tryTimes == 0 && currentHandlerIndex == 0
      ensures calls == [] && trace == []
    {
      this.handlers, this.maxRetryTimes := handlers, maxRetryTimes;
      currentHandlerIndex, statusCode, hasNewRequest, tryTimes := 0, Uninit, false, 0;
      scripts, calls, trace := _ => [], [], [];
    }

    predicate IsStopped()
      reads this
    {
      currentHandlerIndex == -1
    }

    predicate IsMaxRetry()
      reads this
    {
      tryTimes == maxRetryTimes
    }

    method StopExecution()
      modifies this`currentHandlerIndex, this`calls
      ensures IsStopped() && calls == old(calls) + [StopCalled]
    {
      currentHandlerIndex := -1;
      calls := calls + [StopCalled];
    }

    method HandlerIndex(n: int) returns (index: int)
      modifies this`currentHandlerIndex
      ensures index == currentHandlerIndex == if n < 0 || n > handlers - 1 then old(currentHandlerIndex) else n
    {
      if n < 0 || n > handlers - 1 {
        return currentHandlerIndex;
      }
      currentHandlerIndex := n;
      return n;
    }

    /** Calls the next handler of the chain, unless the chain is stopped or at its end. */
    method Next()
      requires Valid()
      modifies this`currentHandlerIndex, this`statusCode, this`hasNewRequest, this`calls
      ensures Valid() && AsView() == NextOn(scripts, handlers, old(AsView()))
      decreases Room(handlers, AsView()), 0
    {
      calls := calls + [NextCalled];
      if IsStopped() {
        return;
      }
      var n := HandlerIndex(-1);
      n := n + 1;
      if n < handlers {
        var index := HandlerIndex(n);
        RunHandler(n);
      }
    }

    /** `handlers[n](ctx)`, the index being set already. */
    method RunHandler(n: nat)
      requires n < handlers && currentHandlerIndex == n
      modifies this`currentHandlerIndex, this`statusCode, this`hasNewRequest, this`calls
      ensures Valid() && AsView() == HandlerOn(scripts, handlers, n, old(AsView()))
      decreases handlers - n, 3
    {
      calls := calls + [Begin(n)];
      RunScript(scripts(n));
    }

    /** The body of a handler or a callback. */
    method RunScript(script: seq<Action>)
      requires Valid()
      modifies this`currentHandlerIndex, this`statusCode, this`hasNewRequest, this`calls
      ensures Valid() && AsView() == Play(scripts, handlers, script, old(AsView()))
      decreases Room(handlers, AsView()), 2, |script|
    {
      assert script[0..] == script;
      for i := 0 to |script|
        invariant Valid() && Room(handlers, AsView()) <= Room(handlers, old(AsView()))
        invariant Play(scripts, handlers, script[i..], AsView()) == Play(scripts, handlers, script, old(AsView()))
      {
        assert script[i..][0] == script[i] && script[i..][1..] == script[i + 1..];
        match script[i] {
          case CallNext => Next();
          case CallStop => StopExecution();
          case SetOk => statusCode := Ok;
          case SetFailed => statusCode := Failed;
          case SetSkipped => statusCode := Skipped;
          case NewRequest => hasNewRequest := true;
        }
      }
    }

    method Init()
      modifies this`hasNewRequest, this`statusCode
      ensures !hasNewRequest && statusCode == Failed
    {
      hasNewRequest := false;
      statusCode := Failed;
    }

    /** One pass of the pipeline; without handlers it only resets the status, and a stop stays. */
    method Do()
      requires Valid()
      modifies this`currentHandlerIndex, this`statusCode, this`hasNewRequest, this`calls
      ensures Valid()
      ensures AsView() ==
        if handlers > 0 then PassOn(scripts, handlers) else View(old(currentHandlerIndex), Failed, false, [])
    {
      Init();
      calls := [];
      if handlers > 0 {
        var index := HandlerIndex(0);
        RunHandler(0);
      }
    }

    /** A spider callback: PreCheck, PreStart, Start, OnRetry, OnFailed or OnFinished. */
    method Callback(script: seq<Action>)
      requires Valid()
      modifies this`currentHandlerIndex, this`statusCode, this`hasNewRequest, this`calls
      ensures Valid() && AsView() == Play(scripts, handlers, script, old(AsView()).(calls := []))
      ensures Begins(calls) != [] <==> old(CanBegin(handlers, AsView())) && CallsNextFirst(script)
      ensures old(IsStopped()) ==> IsStopped()
      ensures old(hasNewRequest) ==> hasNewRequest
    {
      calls := [];
      PlayIsSticky(scripts, handlers, script, AsView());
      PlayBegins(scripts, handlers, script, AsView());
      RunScript(script);
    }

    /** `onRetry(spider.Start)`: counts the retry and runs Start again. */
    method StartAgain(script: seq<Action>)
      requires Valid()
      modifies this`currentHandlerIndex, this`statusCode, this`hasNewRequest, this`calls, this`tryTimes
      ensures Valid() && tryTimes == old(tryTimes) + 1
      ensures AsView() ==
        var retrying := View(old(currentHandlerIndex), Retrying, old(hasNewRequest), []);
        Play(scripts, handlers, script, retrying).(status := Failed)
      ensures old(IsStopped()) ==> IsStopped()
    {
      tryTimes := tryTimes + 1;
      statusCode := Retrying;
      Callback(script);
      statusCode := Failed;
    }
  }
}
