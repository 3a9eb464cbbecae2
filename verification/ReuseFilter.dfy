/** The proxy reuse filter of reqwest/proxz/pool_classic.go, which forgets old uses when its map grows large. */
module ReuseFilter {
  import opened Basics

  /** Hosts are only compared. */
  type Host = nat

  type Uses = map<Host, int>

  datatype Call = Call(host: Host, now: int)

  const LARGE: nat := 30000
  const THREE_HOURS: int := 10800

  // ---------------------------------------------------------------- one call, with and without eviction

  predicate Accepts(uses: Uses, c: Call, sec: int) {
    !(c.host in uses && c.now - uses[c.host] < sec)
  }

  function Evicted(uses: Uses, now: int): Uses {
    map h | h in uses && now - uses[h] <= THREE_HOURS :: uses[h]
  }

  function Use(uses: Uses, c: Call, sec: int): Uses {
    if !Accepts(uses, c, sec) then uses
    else (if |uses| > LARGE then Evicted(uses, c.now) else uses)[c.host := c.now]
  }

  /** The filter that never evicts. */
  function Remember(uses: Uses, c: Call, sec: int): Uses {
    if !Accepts(uses, c, sec) then uses else uses[c.host := c.now]
  }

  /** The map of the evicting filter after a run of calls. */
  function Filtered(calls: seq<Call>, sec: int): Uses {
    if calls == [] then map[] else Use(Filtered(calls[..|calls| - 1], sec), calls[|calls| - 1], sec)
  }

  /** The map of the filter that never evicts. */
  function Remembered(calls: seq<Call>, sec: int): Uses {
    if calls == [] then map[] else Remember(Remembered(calls[..|calls| - 1], sec), calls[|calls| - 1], sec)
  }

  ghost predicate Nondecreasing(calls: seq<Call>) {
    forall i, j :: 0 <= i < j < |calls| ==> calls[i].now <= calls[j].now
  }

  /** The answer of the evicting filter to call `k`. */
  predicate Answer(calls: seq<Call>, sec: int, k: nat)
    requires k < |calls|
  {
    Accepts(Filtered(calls[..k], sec), calls[k], sec)
  }

  ghost predicate SameAnswers(calls: seq<Call>, sec: int) {
    forall k :: 0 <= k < |calls| ==> Answer(calls, sec, k) == Accepts(Remembered(calls[..k], sec), calls[k], sec)
  }

  // ---------------------------------------------------------------- eviction is invisible up to 10801 seconds

  /** The evicting map is the other one with some uses missing, all of them more than three hours old. */
  ghost predicate Forgets(m: Uses, full: Uses, now: int) {
    && (forall h :: h in m ==> h in full && full[h] == m[h])
    && (forall h :: h in full && h !in m ==> now - full[h] > THREE_HOURS)
    && (forall h :: h in full ==> full[h] <= now)
  }

  lemma ForgetsAgrees(m: Uses, full: Uses, c: Call, sec: int)
    requires Forgets(m, full, c.now) && sec <= THREE_HOURS + 1
    ensures Accepts(m, c, sec) == Accepts(full, c, sec)
    ensures Forgets(Use(m, c, sec), Remember(full, c, sec), c.now)
  {}

  lemma ForgetsLater(m: Uses, full: Uses, now: int, later: int)
    requires Forgets(m, full, now) && now <= later
    ensures Forgets(m, full, later)
  {}

  lemma {:induction false} RunForgets(calls: seq<Call>, sec: int, now: int)
    requires Nondecreasing(calls) && sec <= THREE_HOURS + 1
    requires calls == [] || calls[|calls| - 1].now <= now
    ensures Forgets(Filtered(calls, sec), Remembered(calls, sec), now)
  {
    hide Forgets, Use, Remember;
    if calls == [] {
      NothingForgotten(now);
    } else {
      var init, c := calls[..|calls| - 1], calls[|calls| - 1];
      RunForgets(init, sec, c.now);
      ForgetsAgrees(Filtered(init, sec), Remembered(init, sec), c, sec);
      ForgetsLater(Filtered(calls, sec), Remembered(calls, sec), c.now, now);
    }
  }

  lemma NothingForgotten(now: int)
    ensures Forgets(map[], map[], now)
  {}

  lemma AnswersAgree(calls: seq<Call>, sec: int)
    requires Nondecreasing(calls) && sec <= THREE_HOURS + 1
    ensures SameAnswers(calls, sec)
  {
    hide Forgets, Use, Remember, Accepts;
    forall k | 0 <= k < |calls|
      ensures Answer(calls, sec, k) == Accepts(Remembered(calls[..k], sec), calls[k], sec)
    {
      RunForgets(calls[..k], sec, calls[k].now);
      ForgetsAgrees(Filtered(calls[..k], sec), Remembered(calls[..k], sec), calls[k], sec);
    }
  }

  // ---------------------------------------------------------------- and no further

  /** Hosts 0, 1, ..., n-1, all used at time 0. */
  function Crowd(n: nat): seq<Call> { seq(n, (i: nat) => Call(i, 0)) }

  function CrowdMap(n: nat): Uses { if n == 0 then map[] else CrowdMap(n - 1)[n - 1 := 0] }

  lemma {:induction false} CrowdMapIs(n: nat)
    ensures |CrowdMap(n)| == n
    ensures forall h: Host :: h in CrowdMap(n) <==> 0 <= h < n
    ensures forall h: Host :: h in CrowdMap(n) ==> CrowdMap(n)[h] == 0
  {
    if n > 0 { CrowdMapIs(n - 1); }
  }

  lemma {:induction false} CrowdFills(n: nat, sec: int)
    requires n <= LARGE + 1
    ensures Filtered(Crowd(n), sec) == Remembered(Crowd(n), sec) == CrowdMap(n)
  {
    hide Filtered, Remembered;
    if n == 0 {
      EmptyRuns(sec);
    } else {
      CrowdFills(n - 1, sec);
      CrowdMapIs(n - 1);
      assert Crowd(n) == Crowd(n - 1) + [Call(n - 1, 0)];
      RunSnoc(Crowd(n - 1), Call(n - 1, 0), sec);
    }
  }

  lemma EmptyRuns(sec: int)
    ensures Filtered([], sec) == Remembered([], sec) == map[]
  {}

  /** One host too many at 10801 evicts host 0, which the other filter still remembers. */
  function Revealing(): seq<Call> {
    Crowd(LARGE + 1) + [Call(LARGE + 1, THREE_HOURS + 1)] + [Call(0, THREE_HOURS + 1)]
  }

  lemma BeyondTheLimitAnswersDiffer(sec: int)
    requires sec > THREE_HOURS + 1
    ensures Nondecreasing(Revealing()) && !SameAnswers(Revealing(), sec)
  {
    hide Filtered, Remembered, CrowdMap;
    var n := LARGE + 1;
    var before, extra, last := Crowd(n), Call(n, THREE_HOURS + 1), Call(0, THREE_HOURS + 1);
    var all := before + [extra] + [last];
    assert all[..n + 1] == before + [extra] && all[n + 1] == last;
    CrowdFills(n, sec);
    CrowdMapIs(n);
    RunSnoc(before, extra, sec);
    assert Evicted(CrowdMap(n), THREE_HOURS + 1) == map[];
    assert Accepts(Filtered(all[..n + 1], sec), last, sec);
    assert !Accepts(Remembered(all[..n + 1], sec), last, sec);
  }

  lemma RunSnoc(calls: seq<Call>, c: Call, sec: int)
    ensures Filtered(calls + [c], sec) == Use(Filtered(calls, sec), c, sec)
    ensures Remembered(calls + [c], sec) == Remember(Remembered(calls, sec), c, sec)
  {
    assert (calls + [c])[..|calls|] == calls;
  }

  /** Eviction changes no answer, whatever the calls, exactly when the reuse distance is at most 10801 seconds. */
  lemma EvictionIsInvisible(sec: int)
    ensures sec <= 10801 <==> forall calls :: Nondecreasing(calls) ==> SameAnswers(calls, sec)
  {
    if sec <= 10801 {
      forall calls | Nondecreasing(calls) ensures SameAnswers(calls, sec) { AnswersAgree(calls, sec); }
    } else {
      BeyondTheLimitAnswersDiffer(sec);
    }
  }

  // ---------------------------------------------------------------- what follows: distance and size

  /** What an accepted use leaves behind: it stays in the map for three hours at least. */
  lemma {:induction false} UseIsKept(calls: seq<Call>, sec: int, i: nat, j: nat, now: int)
    requires Nondecreasing(calls) && i < j <= |calls| && Answer(calls, sec, i)
    requires calls[j - 1].now <= now <= calls[i].now + THREE_HOURS
    ensures var m := Filtered(calls[..j], sec); calls[i].host in m && m[calls[i].host] >= calls[i].now
  {
    assert calls[..j][..j - 1] == calls[..j - 1];
    if j > i + 1 { UseIsKept(calls, sec, i, j - 1, now); }
  }

  /** Two accepted uses of one host are at least `sec` apart, or at least 10801 seconds. */
  lemma AcceptedUsesAreApart(calls: seq<Call>, sec: int, i: nat, j: nat)
    requires Nondecreasing(calls)
    requires i < j < |calls| && calls[i].host == calls[j].host && Answer(calls, sec, i) && Answer(calls, sec, j)
    ensures calls[j].now - calls[i].now >= Min(sec, THREE_HOURS + 1)
  {
    hide Filtered;
    if calls[j].now <= calls[i].now + THREE_HOURS { UseIsKept(calls, sec, i, j, calls[j].now); }
  }

  /** The hosts of the uses accepted at most three hours before `now`. */
  function UsedRecently(calls: seq<Call>, sec: int, now: int): set<Host> {
    set k | 0 <= k < |calls| && Answer(calls, sec, k) && now - calls[k].now <= THREE_HOURS :: calls[k].host
  }

  lemma AnswerOfPrefix(calls: seq<Call>, sec: int, n: nat, k: nat)
    requires k < n <= |calls|
    ensures Answer(calls[..n], sec, k) == Answer(calls, sec, k)
  {
    assert calls[..n][..k] == calls[..k];
  }

  /** Every host in the map was used, and it was recorded then. */
  lemma {:induction false} EntriesAreUses(calls: seq<Call>, sec: int, h: Host)
    requires h in Filtered(calls, sec)
    ensures exists k :: 0 <= k < |calls| && Answer(calls, sec, k) && calls[k] == Call(h, Filtered(calls, sec)[h])
  {
    var n, m := |calls| - 1, Filtered(calls, sec);
    var init, c := calls[..n], calls[n];
    if Answer(calls, sec, n) && c.host == h {
      assert calls[n] == Call(h, m[h]);
    } else {
      EntriesAreUses(init, sec, h);
      var k :| 0 <= k < |init| && Answer(init, sec, k) && init[k] == Call(h, Filtered(init, sec)[h]);
      AnswerOfPrefix(calls, sec, n, k);
      assert calls[k] == Call(h, m[h]);
    }
  }

  /** Apart from every earlier accepted use of its host by `sec` at least. */
  ghost predicate FarFromUses(calls: seq<Call>, sec: int, k: nat)
    requires k < |calls|
  {
    forall j :: 0 <= j < k && calls[j].host == calls[k].host && Answer(calls, sec, j) ==>
      calls[k].now - calls[j].now >= sec
  }

  /** A call that is far from every accepted use of its host is accepted, whatever the distance and the times. */
  lemma FarCallsAreAccepted(calls: seq<Call>, sec: int, k: nat)
    requires k < |calls| && FarFromUses(calls, sec, k)
    ensures Answer(calls, sec, k)
  {
    hide Filtered;
    var h, before := calls[k].host, calls[..k];
    if h in Filtered(before, sec) {
      EntriesAreUses(before, sec, h);
      var j :| 0 <= j < k && Answer(before, sec, j) && before[j] == Call(h, Filtered(before, sec)[h]);
      AnswerOfPrefix(calls, sec, k, j);
    }
  }

  /**
   * For reuse distances up to 10801 seconds a proxy is accepted exactly when its host was not accepted within the
   * last `sec` seconds.
   */
  lemma AcceptedExactlyWhenFar(calls: seq<Call>, sec: int, k: nat)
    requires Nondecreasing(calls) && sec <= 10801 && k < |calls|
    ensures Answer(calls, sec, k) <==>
      forall j :: 0 <= j < k && calls[j].host == calls[k].host && Answer(calls, sec, j) ==>
        calls[k].now - calls[j].now >= sec
  {
    hide Answer;
    if Answer(calls, sec, k) {
      forall j | 0 <= j < k && calls[j].host == calls[k].host && Answer(calls, sec, j)
        ensures calls[k].now - calls[j].now >= sec
      {
        AcceptedUsesAreApart(calls, sec, j, k);
      }
    }
    if FarFromUses(calls, sec, k) { FarCallsAreAccepted(calls, sec, k); }
  }

  /** The filter that never evicts only ever gets to know more hosts. */
  lemma {:induction false} NoneIsForgotten(calls: seq<Call>, sec: int, k: nat)
    requires k <= |calls|
    ensures Remembered(calls[..k], sec).Keys <= Remembered(calls, sec).Keys
  {
    if k < |calls| {
      var init := calls[..|calls| - 1];
      NoneIsForgotten(init, sec, k);
      assert init[..k] == calls[..k];
    } else {
      assert calls[..k] == calls;
    }
  }

  /** As long as no more than 30000 hosts are known, nothing is evicted. */
  lemma {:induction false} NothingIsEvictedEarly(calls: seq<Call>, sec: int)
    requires |Remembered(calls, sec)| <= 30000
    ensures Filtered(calls, sec) == Remembered(calls, sec)
  {
    hide Accepts;
    if calls != [] {
      var n := |calls| - 1;
      NoneIsForgotten(calls, sec, n);
      SubsetIsNoLarger(Remembered(calls[..n], sec).Keys, Remembered(calls, sec).Keys);
      NothingIsEvictedEarly(calls[..n], sec);
    }
  }

  lemma SubsetIsNoLarger(a: set<Host>, b: set<Host>)
    requires a <= b
    ensures |a| <= |b|
  {
    if a != {} {
      var x :| x in a;
      SubsetIsNoLarger(a - {x}, b - {x});
    }
  }

  /** One accepted use leaves at most 30001 hosts, or else only recent ones and the new one. */
  lemma UseKeepsSmall(calls: seq<Call>, c: Call, sec: int)
    requires Accepts(Filtered(calls, sec), c, sec)
    ensures var m := Filtered(calls + [c], sec);
      |m| <= LARGE + 1 || m.Keys <= UsedRecently(calls, sec, c.now) + {c.host}
  {
    hide Filtered, Answer;
    RunSnoc(calls, c, sec);
    var m := Filtered(calls, sec);
    if |m| > LARGE {
      forall h | h in Evicted(m, c.now) ensures h in UsedRecently(calls, sec, c.now) {
        EntriesAreUses(calls, sec, h);
        var k :| 0 <= k < |calls| && Answer(calls, sec, k) && calls[k] == Call(h, m[h]);
      }
    } else {
      assert m[c.host := c.now].Keys == m.Keys + {c.host};
    }
  }

  /** When the last accepted use was; no use has been accepted when this is `None`. */
  function LastAccepted(calls: seq<Call>, sec: int): (k: Option<nat>)
    ensures k.Some? ==> k.value < |calls|
  {
    if calls == [] then None
    else if Answer(calls, sec, |calls| - 1) then Some(|calls| - 1)
    else LastAccepted(calls[..|calls| - 1], sec)
  }

  lemma RejectedLeavesNoTrace(calls: seq<Call>, sec: int)
    requires calls != [] && !Answer(calls, sec, |calls| - 1)
    ensures Filtered(calls, sec) == Filtered(calls[..|calls| - 1], sec)
  {}

  /** A rejected call changes nothing, so the map is the one that the last accepted call left. */
  lemma {:induction false} LastAcceptedIs(calls: seq<Call>, sec: int)
    ensures match LastAccepted(calls, sec)
      case None => Filtered(calls, sec) == map[]
      case Some(k) => Answer(calls, sec, k) && Filtered(calls, sec) == Filtered(calls[..k + 1], sec)
    ensures forall k :: 0 <= k < |calls| && Answer(calls, sec, k) ==>
      LastAccepted(calls, sec).Some? && k <= LastAccepted(calls, sec).value
  {
    hide Filtered, Answer;
    if calls == [] {
      EmptyRuns(sec);
    } else {
      var n := |calls| - 1;
      assert calls[..n + 1] == calls;
      if !Answer(calls, sec, n) {
        LastAcceptedIs(calls[..n], sec);
        RejectedLeavesNoTrace(calls, sec);
        forall k | 0 <= k < n
          ensures Answer(calls[..n], sec, k) == Answer(calls, sec, k) && calls[..n][..k + 1] == calls[..k + 1]
        {
          AnswerOfPrefix(calls, sec, n, k);
        }
      }
    }
  }

  /**
   * After any run of calls the map holds at most 30001 hosts, or at most one more than those used within the
   * three hours before the last accepted call.
   */
  lemma MapStaysSmall(calls: seq<Call>, sec: int)
    ensures |Filtered(calls, sec)| <= 30001
      || (LastAccepted(calls, sec).Some? && var k := LastAccepted(calls, sec).value;
          |Filtered(calls, sec)| <= 1 + |UsedRecently(calls[..k], sec, calls[k].now)|)
  {
    hide Filtered, LastAccepted, UsedRecently;
    LastAcceptedIs(calls, sec);
    if LastAccepted(calls, sec).Some? {
      var k := LastAccepted(calls, sec).value;
      assert calls[..k + 1] == calls[..k] + [calls[k]];
      UseKeepsSmall(calls[..k], calls[k], sec);
      var m, recent := Filtered(calls, sec), UsedRecently(calls[..k], sec, calls[k].now);
      if |m| > LARGE + 1 { SubsetIsNoLarger(m.Keys, recent + {calls[k].host}); }
    }
  }

  // ---------------------------------------------------------------- the code

  /** What the fetcher delivers: a proxy, the time it has left, and the clock when it was received. */
  datatype Fetched = Fetched(host: Host, left: int, unix: int)

  class ClassicPool {
    const dropProxyPoint: int
    const filterProxySec: int
    var timeFilter: Uses

    constructor (dropProxyPoint: int, filterProxySec: int)
      ensures timeFilter == map[] && this.dropProxyPoint == dropProxyPoint && this.filterProxySec == filterProxySec
    {
      this.dropProxyPoint, this.filterProxySec := dropProxyPoint, filterProxySec;
      timeFilter := map[];
    }

    method Filter(ip: Host, now: int) returns (ok: bool)
      modifies this`timeFilter
      ensures ok == Accepts(old(timeFilter), Call(ip, now), filterProxySec)
      ensures ok <==> !(ip in old(timeFilter) && now - old(timeFilter)[ip] < filterProxySec)
      ensures timeFilter == Use(old(timeFilter), Call(ip, now), filterProxySec)
    {
      if ip in timeFilter && now - timeFilter[ip] < filterProxySec {
        return false;
      }
      if |timeFilter| > 30000 {
        var hosts := timeFilter.Keys;
        while hosts != {}
          invariant hosts <= old(timeFilter.Keys)
          invariant timeFilter ==
            map h | h in old(timeFilter) && (h in hosts || now - old(timeFilter)[h] <= THREE_HOURS)
              :: old(timeFilter)[h]
          decreases hosts
        {
          var p :| p in hosts;
          if now - timeFilter[p] > 10800 {
            timeFilter := timeFilter - {p};
          }
          hosts := hosts - {p};
        }
      }
      timeFilter := timeFilter[ip := now];
      return true;
    }

    predicate Usable(uses: Uses, f: Fetched) {
      f.left >= dropProxyPoint && (filterProxySec <= 0 || Accepts(uses, Call(f.host, f.unix), filterProxySec))
    }

    /**
     * Takes the first fetched proxy that neither expires too soon nor was used too recently; only that one is
     * recorded. When `fetched` has none, the timer fires.
     */
    method AcquireProxy(fetched: seq<Fetched>) returns (proxy: Option<Fetched>)
      modifies this`timeFilter
      ensures forall f :: f in fetched ==> (Usable(old(timeFilter), f) <==>
        f.left >= dropProxyPoint
        && (filterProxySec <= 0 || f.host !in old(timeFilter) || f.unix - old(timeFilter)[f.host] >= filterProxySec))
      ensures proxy == None ==>
        timeFilter == old(timeFilter) && forall k :: 0 <= k < |fetched| ==> !Usable(old(timeFilter), fetched[k])
      ensures proxy.Some? ==> exists k ::
        (0 <= k < |fetched| && proxy.value == fetched[k] && Usable(old(timeFilter), fetched[k])
         && forall i :: 0 <= i < k ==> !Usable(old(timeFilter), fetched[i]))
      ensures proxy.Some? ==> timeFilter == if filterProxySec > 0
        then Use(old(timeFilter), Call(proxy.value.host, proxy.value.unix), filterProxySec) else old(timeFilter)
    {
      for i := 0 to |fetched|
        invariant timeFilter == old(timeFilter)
        invariant forall k :: 0 <= k < i ==> !Usable(old(timeFilter), fetched[k])
      {
        var f := fetched[i];
        if f.left < dropProxyPoint {
          continue;
        }
        if filterProxySec > 0 {
          var ok := Filter(f.host, f.unix);
          if !ok {
            continue;
          }
        }
        return Some(f);
      }
      return None;
    }
  }
}
