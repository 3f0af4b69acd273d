/** Polling several pools for work, src/adapters/pool_router.cc. */
module PoolRouter {
  import opened Arithmetic
  import opened Options

  datatype Strategy = Failover | RoundRobin

  datatype WorkItem = WorkItem(workId: nat, sourceId: nat)

  /** A pool adapter: the work it has normalised and not handed out. */
  class Adapter {
    var pending: seq<WorkItem>

    method PollNormalized() returns (w: Option<WorkItem>)
      modifies this
      ensures old(pending) == [] ==> w == None && pending == []
      ensures old(pending) != [] ==> w == Some(old(pending)[0]) && pending == old(pending)[1..]
    {
      if |pending| == 0 {
        return None;
      }
      w := Some(pending[0]);
      pending := pending[1..];
    }
  }

  // ---- Who is served ----

  /** x % n for x below 2n. */
  function Wrap(x: nat, n: nat): nat {
    if x < n then x else x - n
  }

  /** The adapter at offset k after `start`. */
  predicate ReadyAt(ready: seq<bool>, start: nat, k: nat)
    requires start < |ready| && k < |ready|
  {
    ready[Wrap(start + k, |ready|)]
  }

  /** The index arithmetic of the ring of adapters. */
  function Mod(x: nat, n: nat): (r: nat)
    requires 0 < n && x < 2 * n
    ensures r == Wrap(x, n) < n
  {
    ModUnique(x, n, if x < n then 0 else 1, Wrap(x, n));
    x % n
  }

  /** The first offset from i on at which the adapter after `start` is ready, or n. */
  function FirstReady(ready: seq<bool>, start: nat, i: nat): (k: nat)
    requires start < |ready| && i <= |ready|
    ensures i <= k <= |ready|
    ensures k < |ready| ==> ReadyAt(ready, start, k)
    ensures forall j :: i <= j < k ==> !ReadyAt(ready, start, j)
    decreases |ready| - i
  {
    if i == |ready| then i
    else if ReadyAt(ready, start, i) then i else FirstReady(ready, start, i + 1)
  }

  /** The adapter that round robin serves from index rr, if any is ready. */
  function Served(ready: seq<bool>, rr: nat): Option<nat>
    requires rr < |ready|
  {
    var k := FirstReady(ready, rr, 0);
    if k == |ready| then None else Some(Wrap(rr + k, |ready|))
  }

  /** The index the next call starts from: after the adapter served, or one further when none was. */
  function NextIndex(ready: seq<bool>, rr: nat): (rr': nat)
    requires rr < |ready|
    ensures rr' < |ready|
  {
    match Served(ready, rr)
    case Some(s) => Wrap(s + 1, |ready|)
    case None => Wrap(rr + 1, |ready|)
  }

  /** The adapter at offset k from rr, counted round. */
  function Around(rr: nat, k: nat, n: nat): (i: nat)
    requires n > 0
    ensures i < n
  {
    (rr + k) % n
  }

  lemma AroundIs(ready: seq<bool>, rr: nat, k: nat)
    requires rr < |ready| && k <= |ready|
    ensures Around(rr, k, |ready|) == Wrap(rr + k, |ready|)
    ensures k < |ready| ==> (ReadyAt(ready, rr, k) <==> ready[Around(rr, k, |ready|)])
  {
    assert Mod(rr + k, |ready|) == (rr + k) % |ready|;
  }

  /** The adapter at offset k is served exactly when it is the first ready one; and how the index moves on. */
  lemma ServedIs(ready: seq<bool>, rr: nat, k: nat)
    requires rr < |ready| && k < |ready|
    ensures
      var n := |ready|;
      && (Served(ready, rr) == Some(Around(rr, k, n)) <==>
          ready[Around(rr, k, n)] && forall j :: 0 <= j < k ==> !ready[Around(rr, j, n)])
      && (Served(ready, rr) == None ==> NextIndex(ready, rr) == Around(rr, 1, n))
      && (Served(ready, rr) == Some(Around(rr, k, n)) ==> NextIndex(ready, rr) == Around(Around(rr, k, n), 1, n))
  {
    var n, f := |ready|, FirstReady(ready, rr, 0);
    forall j | 0 <= j < n
      ensures Around(rr, j, n) == Wrap(rr + j, n) && (ReadyAt(ready, rr, j) <==> ready[Around(rr, j, n)])
    {
      AroundIs(ready, rr, j);
    }
    AroundIs(ready, rr, 1);
    AroundIs(ready, Around(rr, k, n), 1);
    hide Around;
  }

  /** Nobody is served exactly when nobody has work. */
  lemma NobodyServed(ready: seq<bool>, rr: nat)
    requires rr < |ready|
    ensures Served(ready, rr) == None <==> forall i :: 0 <= i < |ready| ==> !ready[i]
  {
    if i :| 0 <= i < |ready| && ready[i] {
      CallBringsNearer(ready, rr, i);
    }
  }

  /** A scan from rr that stops at offset k has found whom to serve and where to go on. */
  lemma ScanStops(ready: seq<bool>, rr: nat, k: nat)
    requires rr < |ready| && k <= |ready| && FirstReady(ready, rr, 0) == FirstReady(ready, rr, k)
    requires k < |ready| ==> ReadyAt(ready, rr, k)
    ensures k == |ready| ==> Served(ready, rr) == None && NextIndex(ready, rr) == Wrap(rr + 1, |ready|)
    ensures k < |ready| ==> var s := Wrap(rr + k, |ready|);
      Served(ready, rr) == Some(s) && NextIndex(ready, rr) == Wrap(s + 1, |ready|)
  {
  }

  class PoolRouter {
    var strategy: Strategy
    var adapters: seq<Adapter?>
    var rrIndex: nat

    ghost predicate Valid()
      reads this
    {
      if adapters == [] then rrIndex == 0 else rrIndex < |adapters|
    }

    constructor (strategy: Strategy)
      ensures Valid() && this.strategy == strategy && adapters == [] && rrIndex == 0
    {
      this.strategy, adapters, rrIndex := strategy, [], 0;
    }

    /** addAdapter: the index stays in range, so the next call starts where it would have. */
    method AddAdapter(adapter: Adapter?)
      requires Valid()
      modifies this`adapters
      ensures Valid() && adapters == old(adapters) + [adapter]
    {
      adapters := adapters + [adapter];
    }

    /** setStrategy. */
    method SetStrategy(strategy: Strategy)
      requires Valid()
      modifies this`strategy
      ensures Valid() && this.strategy == strategy
    {
      this.strategy := strategy;
    }

    /** Which adapters exist and have work. */
    function Ready(): (ready: seq<bool>)
      reads `adapters, set i | 0 <= i < |adapters| :: adapters[i]
      ensures |ready| == |adapters|
      ensures forall i :: 0 <= i < |adapters| ==>
        (ready[i] <==> adapters[i] != null && adapters[i].pending != [])
    {
      var all := adapters;
      seq(|all|, i requires 0 <= i < |all| reads set j | 0 <= j < |all| :: all[j] =>
        all[i] != null && all[i].pending != [])
    }

    /** Only adapter s has changed, by giving up its oldest item w. */
    twostate predicate Popped(s: nat, new w: WorkItem)
      requires adapters == old(adapters)
      reads `adapters, set i | 0 <= i < |adapters| :: adapters[i]
    {
      s < |adapters| && adapters[s] != null &&
      var a := adapters[s];
      && old(a.pending) != [] && w == old(a.pending)[0] && a.pending == old(a.pending)[1..]
      && forall b :: b in adapters && b != null && b != a ==> b.pending == old(b.pending)
    }

    twostate predicate Untouched()
      requires adapters == old(adapters)
      reads `adapters, set i | 0 <= i < |adapters| :: adapters[i]
    {
      forall b :: b in adapters && b != null ==> b.pending == old(b.pending)
    }

    /** The outcome of a call that serves s, or nobody. */
    twostate predicate Outcome(new s: Option<nat>, new w: Option<WorkItem>)
      requires adapters == old(adapters)
      reads `adapters, set i | 0 <= i < |adapters| :: adapters[i]
    {
      if s.Some? then w.Some? && Popped(s.value, w.value) else w == None && Untouched()
    }

    method PollFailover() returns (w: Option<WorkItem>)
      requires |adapters| > 0
      modifies set i | 0 <= i < |adapters| && adapters[i] != null :: adapters[i]
      ensures Outcome(Served(old(Ready()), 0), w)
    {
      ghost var ready := Ready();
      for i := 0 to |adapters|
        invariant Untouched()
        invariant FirstReady(ready, 0, 0) == FirstReady(ready, 0, i)
      {
        var a := adapters[i];
        if a != null {
          w := a.PollNormalized();
          if w.Some? {
            return;
          }
        }
      }
      return None;
    }

    /** The scan of round robin: the first ready adapter from rrIndex on, and where it stands. */
    method Scan() returns (w: Option<WorkItem>, idx: nat)
      requires rrIndex < |adapters|
      modifies set i | 0 <= i < |adapters| && adapters[i] != null :: adapters[i]
      ensures Outcome(Served(old(Ready()), rrIndex), w)
      ensures w.Some? ==> Served(old(Ready()), rrIndex) == Some(idx) && idx < |adapters|
      ensures w == None ==> Served(old(Ready()), rrIndex) == None
    {
      hide Mod, Wrap, Served, NextIndex;
      var n := |adapters|;
      ghost var ready := Ready();
      for i := 0 to n
        invariant Untouched()
        invariant FirstReady(ready, rrIndex, 0) == FirstReady(ready, rrIndex, i)
      {
        idx := Mod(rrIndex + i, n);
        var a := adapters[idx];
        if a != null {
          w := a.PollNormalized();
          if w.Some? {
            ScanStops(ready, rrIndex, i);
            assert Popped(idx, w.value);
            return;
          }
        }
      }
      ScanStops(ready, rrIndex, n);
      return None, 0;
    }

    method PollRoundRobin() returns (w: Option<WorkItem>)
      requires rrIndex < |adapters|
      modifies this`rrIndex, set i | 0 <= i < |adapters| && adapters[i] != null :: adapters[i]
      ensures rrIndex == NextIndex(old(Ready()), old(rrIndex)) < |adapters|
      ensures Outcome(Served(old(Ready()), old(rrIndex)), w)
    {
      hide Mod, Wrap, Served, Outcome, Ready;
      var n, idx := |adapters|, 0;
      ghost var ready, rr := Ready(), rrIndex;
      w, idx := Scan();
      assert Outcome(Served(ready, rr), w);
      rrIndex := Mod((if w.Some? then idx else rrIndex) + 1, n);
    }

    /** pollNext: failover serves the first ready adapter, round robin the first ready one from rrIndex on. */
    method PollNext() returns (w: Option<WorkItem>)
      requires Valid()
      modifies this`rrIndex, set i | 0 <= i < |adapters| && adapters[i] != null :: adapters[i]
      ensures Valid()
      ensures |adapters| == 0 ==> w == None && rrIndex == old(rrIndex)
      ensures |adapters| > 0 && strategy.Failover? ==>
        rrIndex == old(rrIndex) && Outcome(Served(old(Ready()), 0), w)
      ensures |adapters| > 0 && strategy.RoundRobin? ==>
        rrIndex == NextIndex(old(Ready()), old(rrIndex)) && Outcome(Served(old(Ready()), old(rrIndex)), w)
    {
      if |adapters| == 0 {
        return None;
      }
      if strategy.Failover? {
        w := PollFailover();
        return;
      }
      w := PollRoundRobin();
    }
  }

  // ---- No starvation ----

  /** How far adapter a is from the index the next call starts at. */
  function Distance(rr: nat, a: nat, n: nat): nat
    requires rr < n && a < n
  {
    if a >= rr then a - rr else a + n - rr
  }

  /** A call made while a has work serves a, or brings it strictly nearer. */
  lemma CallBringsNearer(ready: seq<bool>, rr: nat, a: nat)
    requires rr < |ready| && a < |ready| && ready[a]
    ensures Served(ready, rr).Some?
    ensures Served(ready, rr) == Some(a) || Distance(NextIndex(ready, rr), a, |ready|) < Distance(rr, a, |ready|)
  {
    var n := |ready|;
    var d, k := Distance(rr, a, n), FirstReady(ready, rr, 0);
    assert ReadyAt(ready, rr, d);
  }

  /** The index before call t of a run of calls. */
  function IndexAt(calls: seq<seq<bool>>, n: nat, rr: nat, t: nat): (rr': nat)
    requires rr < n && t <= |calls| && forall i :: 0 <= i < |calls| ==> |calls[i]| == n
    ensures rr' < n
    decreases t
  {
    if t == 0 then rr else NextIndex(calls[t-1], IndexAt(calls, n, rr, t - 1))
  }

  /** The adapter served by call t. */
  function ServedAt(calls: seq<seq<bool>>, n: nat, rr: nat, t: nat): Option<nat>
    requires rr < n && t < |calls| && forall i :: 0 <= i < |calls| ==> |calls[i]| == n
  {
    Served(calls[t], IndexAt(calls, n, rr, t))
  }

  /** While a is not served, its distance falls by at least one a call. */
  lemma {:induction false} DistanceFalls(calls: seq<seq<bool>>, n: nat, rr: nat, a: nat, t: nat)
    requires rr < n && a < n && t <= |calls| && forall i :: 0 <= i < |calls| ==> |calls[i]| == n
    requires forall i :: 0 <= i < t ==> calls[i][a] && ServedAt(calls, n, rr, i) != Some(a)
    ensures Distance(IndexAt(calls, n, rr, t), a, n) + t <= Distance(rr, a, n)
  {
    hide Served, NextIndex, Distance;
    if t > 0 {
      DistanceFalls(calls, n, rr, a, t - 1);
      CallBringsNearer(calls[t-1], IndexAt(calls, n, rr, t - 1), a);
    }
  }

  /** Whatever the others do, an adapter that has work at every one of n calls is served by one of them. */
  lemma NoStarvation(calls: seq<seq<bool>>, n: nat, rr: nat, a: nat)
    requires rr < n && a < n && |calls| == n && forall i :: 0 <= i < n ==> |calls[i]| == n && calls[i][a]
    ensures exists t :: 0 <= t < n && ServedAt(calls, n, rr, t) == Some(a)
  {
    if forall t :: 0 <= t < n ==> ServedAt(calls, n, rr, t) != Some(a) {
      DistanceFalls(calls, n, rr, a, n);
    }
  }
}
