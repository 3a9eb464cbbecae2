/**
 * The workers of a main spider draining their channels (spider/factory.go), as interleaved steps. Every read,
 * send, receive and exit is a step of its own, so the exit check and the exit can be separated by anything.
 */
module WorkerPool {
  import opened Basics

  type Item = nat

  datatype Worker =
    | Top(canStop: bool)       // at the head of the loop
    | SharedEmpty              // has read len(itemCh) == 0 with canStop set; its own channel is not read yet
    | Waiting(canStop: bool)   // at the select
    | Doing(canStop: bool)     // inside f.do
    | Exiting                  // has decided to return
    | Exited

  /**
   * Channel 0 is the spider's item channel; channel 1 + w belongs to worker w alone. `accepted` and `handed` log,
   * per channel, the items a send or an add put in and the items handed to f.do, in order.
   */
  datatype Pool = Pool(
    workers: seq<Worker>, caps: seq<nat>, chans: seq<seq<Item>>, sourceEnded: bool, cancelled: bool,
    accepted: seq<seq<Item>>, handed: seq<seq<Item>>)

  datatype Step =
    | SourceSend(c: nat, item: Item)
    | SourceEnd
    | Cancel
    | ReadShared(w: nat)
    | ReadOwn(w: nat)
    | Receive(w: nat, c: nat)
    | SeeDone(w: nat)
    | Add(w: nat, c: nat, item: Item)
    | Finish(w: nat)
    | Exit(w: nat)

  /** The pool as it is started, with the capacities of the item channel and of every worker's own one. */
  function Initial(caps: seq<nat>): Pool
    requires |caps| > 0
  {
    var n := |caps|;
    Pool(seq(n - 1, _ => Top(false)), caps, seq(n, _ => []), false, false, seq(n, _ => []), seq(n, _ => []))
  }

  ghost predicate Shaped(s: Pool) {
    |s.workers| > 0 && |s.caps| == |s.chans| == |s.accepted| == |s.handed| == |s.workers| + 1
  }

  /**
   * What may happen next. The source sends until it returns, and only then is the spider cancelled; workers add
   * without blocking while they run a task. A worker's own channel is fed by the source and by that worker;
   * with `foreign`, by other workers too.
   */
  ghost predicate Enabled(s: Pool, step: Step, foreign: bool)
    requires Shaped(s)
  {
    match step
    case SourceSend(c, _) => !s.sourceEnded && c < |s.chans| && |s.chans[c]| < s.caps[c]
    case SourceEnd => !s.sourceEnded
    case Cancel => s.sourceEnded && !s.cancelled
    case ReadShared(w) => w < |s.workers| && s.workers[w].Top?
    case ReadOwn(w) => w < |s.workers| && s.workers[w].SharedEmpty?
    case Receive(w, c) =>
      w < |s.workers| && s.workers[w].Waiting? && (c == 0 || c == w + 1) && s.chans[c] != []
    case SeeDone(w) => w < |s.workers| && s.workers[w].Waiting? && s.cancelled
    case Add(w, c, _) =>
      w < |s.workers| && s.workers[w].Doing? && c < |s.chans| && (c == 0 || c == w + 1 || foreign)
    case Finish(w) => w < |s.workers| && s.workers[w].Doing?
    case Exit(w) => w < |s.workers| && s.workers[w].Exiting?
  }

  function Put(s: Pool, c: nat, item: Item): Pool
    requires c < |s.chans| && c < |s.accepted|
  {
    s.(chans := s.chans[c := s.chans[c] + [item]], accepted := s.accepted[c := s.accepted[c] + [item]])
  }

  function Take(s: Pool, c: nat): Pool
    requires c < |s.chans| && c < |s.handed| && s.chans[c] != []
  {
    s.(chans := s.chans[c := s.chans[c][1..]], handed := s.handed[c := s.handed[c] + [s.chans[c][0]]])
  }

  function Move(s: Pool, w: nat, to: Worker): Pool
    requires w < |s.workers|
  {
    s.(workers := s.workers[w := to])
  }

  function Apply(s: Pool, step: Step, ghost foreign: bool): (t: Pool)
    requires Shaped(s) && Enabled(s, step, foreign)
    ensures Shaped(t) && |t.workers| == |s.workers|
  {
    match step
    case SourceSend(c, item) => Put(s, c, item)
    case SourceEnd => s.(sourceEnded := true)
    case Cancel => s.(cancelled := true)
    case ReadShared(w) =>
      var canStop := s.workers[w].canStop;
      Move(s, w, if s.chans[0] == [] && canStop then SharedEmpty else Waiting(canStop))
    case ReadOwn(w) => Move(s, w, if s.chans[w + 1] == [] then Exiting else Waiting(true))
    case Receive(w, c) => Move(Take(s, c), w, Doing(s.workers[w].canStop))
    case SeeDone(w) => Move(s, w, Top(true))
    case Add(w, c, item) => if |s.chans[c]| < s.caps[c] then Put(s, c, item) else s
    case Finish(w) => Move(s, w, Top(s.workers[w].canStop))
    case Exit(w) => Move(s, w, Exited)
  }

  /** The state after a schedule, if the schedule can happen. */
  ghost function Exec(s: Pool, steps: seq<Step>, foreign: bool): (t: Option<Pool>)
    requires Shaped(s)
    ensures t.Some? ==> Shaped(t.value) && |t.value.workers| == |s.workers|
  {
    if steps == [] then Some(s)
    else
      match Exec(s, steps[..|steps| - 1], foreign)
      case None => None
      case Some(t) =>
        var step := steps[|steps| - 1];
        if Enabled(t, step, foreign) then Some(Apply(t, step, foreign)) else None
  }

  // ---------------------------------------------------------------- what becomes of an item

  /** A task may add to the item channel, to its worker's own one, and with `foreign` to any; there is no waiting. */
  lemma AddIsAccepted(s: Pool, w: nat, c: nat, item: Item, foreign: bool)
    requires Shaped(s) && w < |s.workers| && s.workers[w].Doing? && c < |s.chans|
    ensures Enabled(s, Add(w, c, item), foreign) <==> c == 0 || c == w + 1 || foreign
    ensures c == 0 || c == w + 1 || foreign ==>
      var t, added := Apply(s, Add(w, c, item), foreign), if |s.chans[c]| < s.caps[c] then [item] else [];
      && t.accepted[c] == s.accepted[c] + added && t.chans[c] == s.chans[c] + added && t.workers == s.workers
      && forall d :: 0 <= d < |s.chans| && d != c ==> t.accepted[d] == s.accepted[d] && t.chans[d] == s.chans[d]
  {
    assert s.accepted[c] + [] == s.accepted[c] && s.chans[c] + [] == s.chans[c];
  }

  /** The source waits for room; then its item is put in. */
  lemma SendIsAccepted(s: Pool, c: nat, item: Item, foreign: bool)
    requires Shaped(s) && c < |s.chans|
    ensures Enabled(s, SourceSend(c, item), foreign) <==> !s.sourceEnded && |s.chans[c]| < s.caps[c]
    ensures !s.sourceEnded && |s.chans[c]| < s.caps[c] ==>
      var t := Apply(s, SourceSend(c, item), foreign);
      && t.accepted[c] == s.accepted[c] + [item] && t.chans[c] == s.chans[c] + [item] && t.workers == s.workers
      && forall d :: 0 <= d < |s.chans| && d != c ==> t.accepted[d] == s.accepted[d] && t.chans[d] == s.chans[d]
  {}

  /** A waiting worker may take from either channel that has anything, and may see the cancel once there was one. */
  lemma SelectTakesAnyReadyCase(s: Pool, w: nat, c: nat, foreign: bool)
    requires Shaped(s) && w < |s.workers| && s.workers[w].Waiting? && (c == 0 || c == w + 1)
    ensures Enabled(s, SeeDone(w), foreign) <==> s.cancelled
    ensures Enabled(s, Receive(w, c), foreign) <==> s.chans[c] != []
    ensures s.chans[c] != [] ==>
      var t := Apply(s, Receive(w, c), foreign);
      && t.workers[w].Doing? && t.chans[c] == s.chans[c][1..] && t.handed[c] == s.handed[c] + [s.chans[c][0]]
      && t.accepted == s.accepted
  {}

  /** A worker that has seen the cancel never forgets it, and another one's steps do not tell it. */
  lemma CancelIsRemembered(s: Pool, step: Step, w: nat, foreign: bool)
    requires Shaped(s) && w < |s.workers| && Enabled(s, step, foreign)
    ensures KnowsCancel(Apply(s, step, foreign).workers[w]) <==> KnowsCancel(s.workers[w]) || step == SeeDone(w)
  {}

  /** The item that a step offers to channel `c`. */
  function Offer(step: Step, c: nat): seq<Item> {
    match step
    case SourceSend(d, item) => if d == c then [item] else []
    case Add(_, d, item) => if d == c then [item] else []
    case _ => []
  }

  /** The items offered to channel `c` while it had room. */
  ghost function Offered(s: Pool, steps: seq<Step>, c: nat, foreign: bool): seq<Item>
    requires Shaped(s) && c < |s.chans| && Exec(s, steps, foreign).Some?
  {
    if steps == [] then []
    else
      var init := steps[..|steps| - 1];
      var t := Exec(s, init, foreign).value;
      Offered(s, init, c, foreign) + (if |t.chans[c]| < t.caps[c] then Offer(steps[|steps| - 1], c) else [])
  }

  lemma StepAccepts(s: Pool, step: Step, c: nat, foreign: bool)
    requires Shaped(s) && c < |s.chans| && Enabled(s, step, foreign)
    ensures Apply(s, step, foreign).accepted[c] ==
            s.accepted[c] + (if |s.chans[c]| < s.caps[c] then Offer(step, c) else [])
  {
    assert s.accepted[c] + [] == s.accepted[c];
  }

  /** In every schedule, what a channel accepted is what it was offered while it had room, in order. */
  lemma {:induction false} AcceptedIsOffered(s: Pool, steps: seq<Step>, c: nat, foreign: bool)
    requires Shaped(s) && c < |s.chans| && Exec(s, steps, foreign).Some?
    ensures Exec(s, steps, foreign).value.accepted[c] == s.accepted[c] + Offered(s, steps, c, foreign)
  {
    hide Apply, Enabled;
    if steps != [] {
      var init := steps[..|steps| - 1];
      AcceptedIsOffered(s, init, c, foreign);
      StepAccepts(Exec(s, init, foreign).value, steps[|steps| - 1], c, foreign);
    }
  }

  // ---------------------------------------------------------------- the invariant

  /** The worker has seen the shared channel empty after the cancel and will not receive from it on this way out. */
  predicate Past(w: Worker) { w.SharedEmpty? || w.Exiting? || w.Exited? }

  predicate KnowsCancel(w: Worker) { Past(w) || ((w.Top? || w.Waiting? || w.Doing?) && w.canStop) }

  predicate Leaves(w: Worker) { w.Exiting? || w.Exited? }

  ghost predicate Conserved(s: Pool)
    requires Shaped(s)
  {
    forall c :: 0 <= c < |s.chans| ==> s.accepted[c] == s.handed[c] + s.chans[c]
  }

  ghost predicate AllPast(workers: seq<Worker>) { forall w :: 0 <= w < |workers| ==> Past(workers[w]) }

  ghost predicate CancelKnown(workers: seq<Worker>, cancelled: bool) {
    forall w :: 0 <= w < |workers| && KnowsCancel(workers[w]) ==> cancelled
  }

  ghost predicate OwnDrained(workers: seq<Worker>, chans: seq<seq<Item>>)
    requires |chans| == |workers| + 1
  {
    forall w :: 0 <= w < |workers| && Leaves(workers[w]) ==> chans[w + 1] == []
  }

  ghost predicate Inv(s: Pool, foreign: bool) {
    && Shaped(s) && Conserved(s)
    && (s.cancelled ==> s.sourceEnded)
    && CancelKnown(s.workers, s.cancelled)
    && (AllPast(s.workers) ==> s.chans[0] == [])
    && (!foreign ==> OwnDrained(s.workers, s.chans))
  }

  lemma PutConserves(s: Pool, c: nat, item: Item)
    requires Shaped(s) && Conserved(s) && c < |s.chans|
    ensures Conserved(Put(s, c, item))
  {
    assert s.accepted[c] == s.handed[c] + s.chans[c];
  }

  lemma TakeConserves(s: Pool, c: nat)
    requires Shaped(s) && Conserved(s) && c < |s.chans| && s.chans[c] != []
    ensures Conserved(Take(s, c))
  {
    assert s.accepted[c] == s.handed[c] + s.chans[c];
    assert s.chans[c] == [s.chans[c][0]] + s.chans[c][1..];
  }

  /** Items arrive only while some worker is not past its check, and never for a worker that leaves. */
  lemma PutKeepsInv(s: Pool, c: nat, item: Item, foreign: bool, awake: nat)
    requires Inv(s, foreign) && c < |s.chans|
    requires awake < |s.workers| && !Past(s.workers[awake])
    requires c > 0 && !foreign ==> !Leaves(s.workers[c - 1])
    ensures Inv(Put(s, c, item), foreign)
  {
    PutConserves(s, c, item);
  }

  lemma TakeKeepsInv(s: Pool, c: nat, foreign: bool)
    requires Inv(s, foreign) && c < |s.chans| && s.chans[c] != []
    ensures Inv(Take(s, c), foreign)
  {
    TakeConserves(s, c);
  }

  /** A worker may move on: knowing of the cancel once there was one, past its check once the channel was empty. */
  lemma MoveKeepsInv(s: Pool, w: nat, to: Worker, foreign: bool)
    requires Inv(s, foreign) && w < |s.workers|
    requires KnowsCancel(to) ==> s.cancelled
    requires Past(to) ==> Past(s.workers[w]) || s.chans[0] == []
    requires Leaves(to) && !foreign ==> Leaves(s.workers[w]) || s.chans[w + 1] == []
    ensures Inv(Move(s, w, to), foreign)
  {
    var t := Move(s, w, to);
    if AllPast(t.workers) {
      assert Past(t.workers[w]);
      forall v | 0 <= v < |s.workers| && v != w ensures Past(s.workers[v]) { assert Past(t.workers[v]); }
    }
  }

  lemma ReadKeepsInv(s: Pool, w: nat, foreign: bool)
    requires Inv(s, foreign) && w < |s.workers|
    ensures s.workers[w].Top? && s.chans[0] == [] && s.workers[w].canStop ==> Inv(Move(s, w, SharedEmpty), foreign)
    ensures s.workers[w].Top? ==> Inv(Move(s, w, Waiting(s.workers[w].canStop)), foreign)
    ensures s.workers[w].SharedEmpty? && s.chans[w + 1] == [] ==> Inv(Move(s, w, Exiting), foreign)
    ensures s.workers[w].SharedEmpty? ==> Inv(Move(s, w, Waiting(true)), foreign)
    ensures s.workers[w].Exiting? ==> Inv(Move(s, w, Exited), foreign)
  {
    hide Move, Conserved, AllPast, OwnDrained, Inv;
    InvKnows(s, w, foreign);
    var worker := s.workers[w];
    if worker.Top? {
      if s.chans[0] == [] && worker.canStop { MoveKeepsInv(s, w, SharedEmpty, foreign); }
      MoveKeepsInv(s, w, Waiting(worker.canStop), foreign);
    } else if worker.SharedEmpty? {
      if s.chans[w + 1] == [] { MoveKeepsInv(s, w, Exiting, foreign); }
      MoveKeepsInv(s, w, Waiting(true), foreign);
    } else if worker.Exiting? {
      MoveKeepsInv(s, w, Exited, foreign);
    }
  }

  lemma WorkKeepsInv(s: Pool, w: nat, foreign: bool)
    requires Inv(s, foreign) && w < |s.workers|
    ensures s.workers[w].Waiting? ==> Inv(Move(s, w, Doing(s.workers[w].canStop)), foreign)
    ensures s.workers[w].Waiting? && s.cancelled ==> Inv(Move(s, w, Top(true)), foreign)
    ensures s.workers[w].Doing? ==> Inv(Move(s, w, Top(s.workers[w].canStop)), foreign)
  {
    hide Move, Conserved, AllPast, OwnDrained, Inv;
    InvKnows(s, w, foreign);
    var worker := s.workers[w];
    if worker.Waiting? {
      MoveKeepsInv(s, w, Doing(worker.canStop), foreign);
      if s.cancelled { MoveKeepsInv(s, w, Top(true), foreign); }
    } else if worker.Doing? {
      MoveKeepsInv(s, w, Top(worker.canStop), foreign);
    }
  }

  lemma InvKnows(s: Pool, w: nat, foreign: bool)
    requires Inv(s, foreign) && w < |s.workers|
    ensures Shaped(s) && (KnowsCancel(s.workers[w]) ==> s.cancelled)
  {}

  lemma AddKeepsInv(s: Pool, w: nat, c: nat, item: Item, foreign: bool)
    requires Inv(s, foreign) && w < |s.workers| && s.workers[w].Doing?
    requires c < |s.chans| && (c == 0 || c == w + 1 || foreign)
    ensures Inv(Put(s, c, item), foreign)
  {
    PutKeepsInv(s, c, item, foreign, w);
  }

  lemma SendKeepsInv(s: Pool, c: nat, item: Item, foreign: bool)
    requires Inv(s, foreign) && !s.sourceEnded && c < |s.chans|
    ensures Inv(Put(s, c, item), foreign)
  {
    hide Put, Conserved;
    InvKnows(s, 0, foreign);
    if c > 0 { InvKnows(s, c - 1, foreign); }
    PutKeepsInv(s, c, item, foreign, 0);
  }

  lemma CancelKeepsInv(s: Pool, foreign: bool)
    requires Inv(s, foreign)
    ensures Inv(s.(sourceEnded := true), foreign)
    ensures s.sourceEnded ==> Inv(s.(cancelled := true), foreign)
  {}

  lemma InvStep(s: Pool, step: Step, foreign: bool)
    requires Inv(s, foreign) && Enabled(s, step, foreign)
    ensures Inv(Apply(s, step, foreign), foreign)
  {
    hide Put, Take, Move, Inv, Conserved, AllPast, OwnDrained, CancelKnown, Past, KnowsCancel, Leaves;
    match step {
      case SourceSend(c, item) => SendKeepsInv(s, c, item, foreign);
      case Add(w, c, item) => AddKeepsInv(s, w, c, item, foreign);
      case Receive(w, c) =>
        InvKnows(s, w, foreign);
        TakeKeepsInv(s, c, foreign);
        TakeLeavesWorkers(s, c);
        WorkKeepsInv(Take(s, c), w, foreign);
      case ReadShared(w) => ReadKeepsInv(s, w, foreign);
      case ReadOwn(w) => ReadKeepsInv(s, w, foreign);
      case Exit(w) => ReadKeepsInv(s, w, foreign);
      case SeeDone(w) => WorkKeepsInv(s, w, foreign);
      case Finish(w) => WorkKeepsInv(s, w, foreign);
      case SourceEnd => CancelKeepsInv(s, foreign);
      case Cancel => CancelKeepsInv(s, foreign);
    }
  }

  lemma TakeLeavesWorkers(s: Pool, c: nat)
    requires c < |s.chans| && c < |s.handed| && s.chans[c] != []
    ensures Take(s, c).workers == s.workers
  {}

  lemma {:induction false} InvRuns(s: Pool, steps: seq<Step>, foreign: bool)
    requires Inv(s, foreign)
    ensures Exec(s, steps, foreign).Some? ==> Inv(Exec(s, steps, foreign).value, foreign)
  {
    if steps != [] {
      var init := steps[..|steps| - 1];
      InvRuns(s, init, foreign);
      var t := Exec(s, init, foreign);
      if t.Some? && Enabled(t.value, steps[|steps| - 1], foreign) { InvStep(t.value, steps[|steps| - 1], foreign); }
    }
  }

  // ---------------------------------------------------------------- the theorems

  ghost predicate AllExited(s: Pool) { forall w :: 0 <= w < |s.workers| ==> s.workers[w].Exited? }

  /**
   * In every interleaving: each channel accepts what it is offered while it has room, and hands out the accepted
   * items in order and once each, what is not yet handed out being what it holds; and when all workers have exited
   * the item channel is empty. Own channels are empty too, unless other workers feed them.
   */
  lemma EveryAcceptedItemIsHandedOnce(caps: seq<nat>, steps: seq<Step>, foreign: bool)
    requires |caps| > 1 && Exec(Initial(caps), steps, foreign).Some?
    ensures var s, n := Exec(Initial(caps), steps, foreign).value, |caps| - 1;
      && (forall c :: 0 <= c <= n ==> Offered(Initial(caps), steps, c, foreign) == s.handed[c] + s.chans[c])
      && (forall c :: 0 <= c <= n ==> s.accepted[c] == Offered(Initial(caps), steps, c, foreign))
      && (AllExited(s) ==> s.chans[0] == [] && s.handed[0] == s.accepted[0])
      && (AllExited(s) && !foreign ==> forall c :: 0 <= c <= n ==> s.chans[c] == [] && s.handed[c] == s.accepted[c])
  {
    var s0, n := Initial(caps), |caps| - 1;
    assert Inv(s0, foreign) by {
      assert !Past(s0.workers[0]);
    }
    InvRuns(s0, steps, foreign);
    var s := Exec(s0, steps, foreign).value;
    forall c | 0 <= c <= n ensures s.accepted[c] == Offered(s0, steps, c, foreign) {
      AcceptedIsOffered(s0, steps, c, foreign);
    }
    if AllExited(s) {
      assert forall w :: 0 <= w < |s.workers| ==> Past(s.workers[w]);
      if !foreign {
        forall c | 0 <= c <= n ensures s.chans[c] == [] {
          if c > 0 { assert Leaves(s.workers[c - 1]); }
        }
      }
    }
  }

  // ---------------------------------------------------------------- every worker can get out

  lemma Extend(s0: Pool, steps: seq<Step>, step: Step, foreign: bool)
    requires Shaped(s0) && Exec(s0, steps, foreign).Some? && Enabled(Exec(s0, steps, foreign).value, step, foreign)
    ensures Exec(s0, steps + [step], foreign) == Some(Apply(Exec(s0, steps, foreign).value, step, foreign))
  {
    assert (steps + [step])[..|steps|] == steps;
  }

  /** The step that brings a worker nearer to its exit, once the spider is cancelled. */
  function WayOut(s: Pool, w: nat): Step
    requires Shaped(s) && w < |s.workers|
  {
    match s.workers[w]
    case Top(_) => ReadShared(w)
    case SharedEmpty => ReadOwn(w)
    case Waiting(_) =>
      if s.chans[0] != [] then Receive(w, 0) else if s.chans[w + 1] != [] then Receive(w, w + 1) else SeeDone(w)
    case Doing(_) => Finish(w)
    case _ => Exit(w)
  }

  /** The items a worker may still have to take. */
  function Queued(s: Pool, w: nat): nat
    requires Shaped(s) && w < |s.workers|
  {
    |s.chans[0]| + |s.chans[w + 1]|
  }

  /** How many steps there are, at most, to the next receive or to the exit. */
  function Detour(s: Pool, w: nat): nat
    requires Shaped(s) && w < |s.workers|
  {
    match s.workers[w]
    case Exited => 0
    case Exiting => 1
    case SharedEmpty => 2
    case Top(canStop) => if Queued(s, w) > 0 || canStop then 3 else 5
    case Waiting(_) => if Queued(s, w) > 0 then 0 else 4
    case Doing(_) => 6
  }

  /** All that worker `w` changes on its way out is itself, and that it may take items from its two channels. */
  ghost predicate OnlyTakes(s: Pool, t: Pool, w: nat)
    requires Shaped(s) && Shaped(t)
  {
    && |t.workers| == |s.workers| && t.caps == s.caps && t.cancelled == s.cancelled && t.accepted == s.accepted
    && (forall v :: 0 <= v < |s.workers| && v != w ==> t.workers[v] == s.workers[v])
    && (forall c :: 0 <= c < |s.chans| ==> |t.chans[c]| <= |s.chans[c]|)
    && (forall c :: 0 < c < |s.chans| && c != w + 1 ==> t.chans[c] == s.chans[c])
  }

  lemma WayOutIsOpen(s: Pool, w: nat, foreign: bool)
    requires Shaped(s) && s.cancelled && w < |s.workers| && !s.workers[w].Exited?
    ensures Enabled(s, WayOut(s, w), foreign)
  {}

  lemma MoveOnlyTakes(s: Pool, w: nat, to: Worker)
    requires Shaped(s) && w < |s.workers|
    ensures Shaped(Move(s, w, to)) && OnlyTakes(s, Move(s, w, to), w)
  {}

  lemma TakeOnlyTakes(s: Pool, w: nat, c: nat)
    requires Shaped(s) && w < |s.workers| && (c == 0 || c == w + 1) && s.chans[c] != []
    ensures Shaped(Take(s, c)) && OnlyTakes(s, Take(s, c), w)
  {}

  lemma WayOutOnlyTakes(s: Pool, w: nat, foreign: bool)
    requires Shaped(s) && w < |s.workers| && Enabled(s, WayOut(s, w), foreign)
    ensures OnlyTakes(s, Apply(s, WayOut(s, w), foreign), w)
  {
    hide Take, OnlyTakes;
    var step := WayOut(s, w);
    var t := Apply(s, step, foreign);
    if step.Receive? {
      TakeOnlyTakes(s, w, step.c);
      MoveOnlyTakes(Take(s, step.c), w, t.workers[w]);
      OnlyTakesAgain(s, Take(s, step.c), t, w);
    } else {
      MoveOnlyTakes(s, w, t.workers[w]);
    }
  }

  lemma WayOutAdvances(s: Pool, w: nat, foreign: bool)
    requires Shaped(s) && s.cancelled && w < |s.workers| && !s.workers[w].Exited?
    requires Enabled(s, WayOut(s, w), foreign)
    ensures var t := Apply(s, WayOut(s, w), foreign);
      Queued(t, w) < Queued(s, w) || (Queued(t, w) == Queued(s, w) && Detour(t, w) < Detour(s, w))
  {}

  lemma OnlyTakesAgain(s: Pool, t: Pool, u: Pool, w: nat)
    requires Shaped(s) && Shaped(t) && Shaped(u) && OnlyTakes(s, t, w) && OnlyTakes(t, u, w)
    ensures OnlyTakes(s, u, w)
  {}

  /** From any cancelled state a worker can get to its exit on its own, whatever the others are doing. */
  lemma {:induction false} GetsOut(s0: Pool, steps: seq<Step>, w: nat, foreign: bool) returns (all: seq<Step>)
    requires Shaped(s0) && w < |s0.workers|
    requires Exec(s0, steps, foreign).Some? && Exec(s0, steps, foreign).value.cancelled
    ensures steps <= all && Exec(s0, all, foreign).Some?
    ensures var s, t := Exec(s0, steps, foreign).value, Exec(s0, all, foreign).value;
      t.workers[w].Exited? && OnlyTakes(s, t, w)
    decreases Queued(Exec(s0, steps, foreign).value, w), Detour(Exec(s0, steps, foreign).value, w)
  {
    hide Exec, WayOut, OnlyTakes, Detour, Queued, Apply, Enabled;
    var s := Exec(s0, steps, foreign).value;
    if s.workers[w].Exited? {
      all := steps;
      TakesNothing(s, w);
    } else {
      WayOutIsOpen(s, w, foreign);
      WayOutOnlyTakes(s, w, foreign);
      WayOutAdvances(s, w, foreign);
      Extend(s0, steps, WayOut(s, w), foreign);
      var t := Apply(s, WayOut(s, w), foreign);
      StaysCancelled(s, t, w);
      all := GetsOut(s0, steps + [WayOut(s, w)], w, foreign);
      OnlyTakesAgain(s, t, Exec(s0, all, foreign).value, w);
    }
  }

  lemma TakesNothing(s: Pool, w: nat)
    requires Shaped(s)
    ensures OnlyTakes(s, s, w)
  {}

  lemma StaysCancelled(s: Pool, t: Pool, w: nat)
    requires Shaped(s) && Shaped(t) && OnlyTakes(s, t, w)
    ensures t.cancelled == s.cancelled
  {}

  /** Workers `lo` to `hi` get out; the others, and the channels of the others, stay as they are. */
  ghost predicate HaveLeft(s: Pool, t: Pool, lo: nat, hi: nat)
    requires Shaped(s) && Shaped(t)
  {
    && |t.workers| == |s.workers| && t.caps == s.caps && t.cancelled == s.cancelled && t.accepted == s.accepted
    && (forall v :: 0 <= v < |s.workers| ==>
          if lo <= v < hi then t.workers[v].Exited? else t.workers[v] == s.workers[v])
    && (forall c :: 0 <= c < |s.chans| ==> |t.chans[c]| <= |s.chans[c]|)
    && (forall c :: 0 < c < |s.chans| && !(lo < c <= hi) ==> t.chans[c] == s.chans[c])
  }

  lemma NoneHasLeft(s: Pool, lo: nat)
    requires Shaped(s)
    ensures HaveLeft(s, s, lo, lo)
  {}

  lemma OneMoreLeaves(s: Pool, t: Pool, u: Pool, lo: nat, hi: nat)
    requires Shaped(s) && Shaped(t) && Shaped(u) && lo < hi <= |s.workers|
    requires HaveLeft(s, t, lo, hi - 1) && OnlyTakes(t, u, hi - 1) && u.workers[hi - 1].Exited?
    ensures HaveLeft(s, u, lo, hi)
  {}

  lemma {:induction false} SomeGetOut(s0: Pool, steps: seq<Step>, lo: nat, hi: nat, foreign: bool)
    returns (all: seq<Step>)
    requires Shaped(s0) && lo <= hi <= |s0.workers|
    requires Exec(s0, steps, foreign).Some? && Exec(s0, steps, foreign).value.cancelled
    ensures steps <= all && Exec(s0, all, foreign).Some?
    ensures HaveLeft(Exec(s0, steps, foreign).value, Exec(s0, all, foreign).value, lo, hi)
    decreases hi
  {
    hide Exec, OnlyTakes;
    var s := Exec(s0, steps, foreign).value;
    if lo == hi {
      all := steps;
      NoneHasLeft(s, lo);
    } else {
      var before := SomeGetOut(s0, steps, lo, hi - 1, foreign);
      all := GetsOut(s0, before, hi - 1, foreign);
      OneMoreLeaves(s, Exec(s0, before, foreign).value, Exec(s0, all, foreign).value, lo, hi);
    }
  }

  /** After the cancel no run is a dead end: every schedule can be continued until all workers have exited. */
  lemma EveryRunCanEnd(caps: seq<nat>, steps: seq<Step>, foreign: bool) returns (all: seq<Step>)
    requires |caps| > 1 && Exec(Initial(caps), steps, foreign).Some?
    requires Exec(Initial(caps), steps, foreign).value.cancelled
    ensures steps <= all && Exec(Initial(caps), all, foreign).Some?
    ensures AllExited(Exec(Initial(caps), all, foreign).value)
  {
    hide Exec;
    all := SomeGetOut(Initial(caps), steps, 0, |caps| - 1, foreign);
  }

  // ---------------------------------------------------------------- when own channels drain

  /** However a run goes, own channels are empty once all workers have exited. */
  ghost predicate OwnChannelsDrain(caps: seq<nat>, foreign: bool)
    requires |caps| > 1
  {
    forall steps :: Exec(Initial(caps), steps, foreign).Some? ==>
      var s := Exec(Initial(caps), steps, foreign).value;
      AllExited(s) ==> forall c :: 0 < c < |caps| ==> s.chans[c] == []
  }

  /**
   * Worker `v` can strand an item in the channel of worker `w`: that one holds something, and `v` can be given a
   * task to add it from.
   */
  predicate MayStrand(caps: seq<nat>, v: nat, w: nat)
    requires v + 1 < |caps| && w + 1 < |caps|
  {
    v != w && caps[w + 1] > 0 && (caps[0] > 0 || caps[v + 1] > 0)
  }

  ghost predicate SomeMayStrand(caps: seq<nat>) {
    exists v: nat, w: nat :: v + 1 < |caps| && w + 1 < |caps| && MayStrand(caps, v, w)
  }

  ghost predicate WithinCapacity(s: Pool)
    requires Shaped(s)
  {
    forall c :: 0 <= c < |s.chans| ==> |s.chans[c]| <= s.caps[c]
  }

  lemma StepKeepsCapacity(s: Pool, step: Step, foreign: bool)
    requires Shaped(s) && WithinCapacity(s) && Enabled(s, step, foreign)
    ensures WithinCapacity(Apply(s, step, foreign)) && Apply(s, step, foreign).caps == s.caps
  {}

  /** No worker but `w` ever runs a task, and `w` leaves with its channel empty. */
  ghost predicate OnlyWorks(s: Pool, w: nat)
    requires Shaped(s) && w < |s.workers|
  {
    && (forall v :: 0 <= v < |s.workers| && v != w ==> !s.workers[v].Doing?)
    && (Leaves(s.workers[w]) ==> s.chans[w + 1] == [])
  }

  lemma OnlyWorksStep(s: Pool, step: Step, w: nat)
    requires Inv(s, true) && WithinCapacity(s) && w < |s.workers| && OnlyWorks(s, w) && Enabled(s, step, true)
    requires s.caps[w + 1] > 0 && forall v: nat :: v < |s.workers| ==> !MayStrand(s.caps, v, w)
    ensures OnlyWorks(Apply(s, step, true), w)
  {
    hide Conserved, AllPast, OwnDrained;
    InvKnows(s, w, true);
    CancelEnds(s);
    if step.Receive? { assert !MayStrand(s.caps, step.w, w); }
  }

  lemma CancelEnds(s: Pool)
    requires Inv(s, true)
    ensures s.cancelled ==> s.sourceEnded
  {}

  ghost predicate Drains(s: Pool, w: nat)
    requires Shaped(s) && w < |s.workers|
  {
    && Inv(s, true) && WithinCapacity(s)
    && (s.caps[w + 1] > 0 ==> OnlyWorks(s, w))
  }

  lemma {:induction false} DrainsRuns(s: Pool, steps: seq<Step>, w: nat)
    requires Shaped(s) && w < |s.workers| && Drains(s, w)
    requires forall v: nat :: v < |s.workers| ==> !MayStrand(s.caps, v, w)
    ensures Exec(s, steps, true).Some? ==>
      Drains(Exec(s, steps, true).value, w) && Exec(s, steps, true).value.caps == s.caps
  {
    hide Apply, Enabled, Inv, WithinCapacity, OnlyWorks, MayStrand;
    if steps != [] {
      var init, step := steps[..|steps| - 1], steps[|steps| - 1];
      DrainsRuns(s, init, w);
      var t := Exec(s, init, true);
      if t.Some? && Enabled(t.value, step, true) {
        InvStep(t.value, step, true);
        StepKeepsCapacity(t.value, step, true);
        if s.caps[w + 1] > 0 { OnlyWorksStep(t.value, step, w); }
      }
    }
  }

  lemma InitialDrains(caps: seq<nat>, w: nat)
    requires w + 1 < |caps|
    ensures Drains(Initial(caps), w)
  {
    assert !Past(Initial(caps).workers[0]);
  }

  /** A channel that nobody can strand an item in is empty in the end. */
  lemma DrainedInTheEnd(caps: seq<nat>, steps: seq<Step>, w: nat)
    requires w + 1 < |caps| && Exec(Initial(caps), steps, true).Some?
    requires AllExited(Exec(Initial(caps), steps, true).value)
    requires forall v: nat :: v + 1 < |caps| ==> !MayStrand(caps, v, w)
    ensures Exec(Initial(caps), steps, true).value.chans[w + 1] == []
  {
    hide Exec, Inv, MayStrand;
    InitialDrains(caps, w);
    DrainsRuns(Initial(caps), steps, w);
    var s := Exec(Initial(caps), steps, true).value;
    assert s.workers[w].Exited? && |s.chans[w + 1]| <= s.caps[w + 1];
  }

  /** Worker `v` has taken the one item of the source; the spider is cancelled, and nothing is queued. */
  lemma OneIsBusy(caps: seq<nat>, v: nat, c: nat, item: Item) returns (steps: seq<Step>)
    requires v + 1 < |caps| && (c == 0 || c == v + 1) && caps[c] > 0
    ensures Exec(Initial(caps), steps, true).Some?
    ensures var s := Exec(Initial(caps), steps, true).value;
      && s.cancelled && s.caps == caps && s.workers[v] == Doing(false)
      && forall d :: 0 <= d < |caps| ==> s.chans[d] == []
  {
    hide Exec;
    var s0 := Initial(caps);
    ExecNothing(s0);
    var none: seq<Step> := [];
    Extend(s0, none, SourceSend(c, item), true);
    steps := none + [SourceSend(c, item)];
    Extend(s0, steps, ReadShared(v), true);
    steps := steps + [ReadShared(v)];
    Extend(s0, steps, Receive(v, c), true);
    steps := steps + [Receive(v, c)];
    Extend(s0, steps, SourceEnd, true);
    steps := steps + [SourceEnd];
    Extend(s0, steps, Cancel, true);
    steps := steps + [Cancel];
  }

  lemma ExecNothing(s: Pool)
    requires Shaped(s)
    ensures Exec(s, [], true) == Some(s)
  {}

  /** Worker `v` adds an item to the channel of worker `w` when that one is gone: nobody takes it any more. */
  lemma ForeignAddStrands(caps: seq<nat>, v: nat, w: nat, item: Item) returns (steps: seq<Step>)
    requires v + 1 < |caps| && w + 1 < |caps| && MayStrand(caps, v, w)
    ensures Exec(Initial(caps), steps, true).Some?
    ensures var s := Exec(Initial(caps), steps, true).value; AllExited(s) && s.chans[w + 1] == [item]
  {
    hide Exec;
    var s0 := Initial(caps);
    steps := OneIsBusy(caps, v, if caps[0] > 0 then 0 else v + 1, item);
    steps := SomeGetOut(s0, steps, 0, v, true);
    steps := SomeGetOut(s0, steps, v + 1, |caps| - 1, true);
    var s := Exec(s0, steps, true).value;
    assert |s.chans[w + 1]| == 0;
    Extend(s0, steps, Add(v, w + 1, item), true);
    steps := steps + [Add(v, w + 1, item)];
    steps := GetsOut(s0, steps, v, true);
  }

  /**
   * Own channels always drain exactly when no worker adds to another one's channel, or none can: a channel that
   * holds anything belongs to the only worker that is ever given a task.
   */
  lemma OwnChannelsDrainExactly(caps: seq<nat>, foreign: bool)
    requires |caps| > 1
    ensures OwnChannelsDrain(caps, foreign) <==> !foreign || !SomeMayStrand(caps)
  {
    hide Exec, MayStrand;
    if !foreign || !SomeMayStrand(caps) {
      forall steps | Exec(Initial(caps), steps, foreign).Some? && AllExited(Exec(Initial(caps), steps, foreign).value)
        ensures forall c :: 0 < c < |caps| ==> Exec(Initial(caps), steps, foreign).value.chans[c] == []
      {
        if !foreign {
          EveryAcceptedItemIsHandedOnce(caps, steps, false);
        } else {
          forall c | 0 < c < |caps| ensures Exec(Initial(caps), steps, true).value.chans[c] == [] {
            DrainedInTheEnd(caps, steps, c - 1);
          }
        }
      }
    } else {
      var v: nat, w: nat :| v + 1 < |caps| && w + 1 < |caps| && MayStrand(caps, v, w);
      var steps := ForeignAddStrands(caps, v, w, 0);
      assert Exec(Initial(caps), steps, foreign).value.chans[w + 1] != [];
    }
  }

  /** With one capacity for all channels: no foreign adds, a single worker, or channels that hold nothing. */
  lemma DrainWithOneCapacity(n: nat, cap: nat, foreign: bool)
    requires n > 0
    ensures OwnChannelsDrain(seq(n + 1, _ => cap), foreign) <==> !foreign || n == 1 || cap == 0
  {
    var caps := seq(n + 1, _ => cap);
    OwnChannelsDrainExactly(caps, foreign);
    if n > 1 && cap > 0 { assert MayStrand(caps, 0, 1); }
  }
}
