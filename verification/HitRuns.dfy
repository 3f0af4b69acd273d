/** Whole runs: any number of launches, each under any schedule, and drains between them. */
module HitRuns {
  import opened Words
  import opened HitRing
  import opened HitProtocol
  import opened HitSafety
  import opened HitDrain

  /** Ring and counters between launches; `log` and `drained` are history. */
  datatype Engine = Engine(ring: seq<Hit>, writeIdx: nat, offset: nat, log: seq<Hit>, drained: nat)

  datatype Op =
    | Launch(blocks: seq<Block>, schedule: seq<(nat, nat)>)
    | Drain(maxOut: nat)

  function Device(e: Engine, blocks: seq<Block>): State {
    State(blocks, e.ring, e.writeIdx, e.log)
  }

  /** The engine after one operation, and the hits handed to the host. */
  function Exec(e: Engine, op: Op): (Engine, seq<Hit>)
    requires |e.ring| > 0
  {
    match op
    case Launch(blocks, schedule) =>
      var r := Run(Device(e, blocks), schedule);
      (Engine(r.ring, r.writeIdx, e.offset, r.log, e.drained), [])
    case Drain(maxOut) =>
      var n := Due(e.writeIdx, e.offset, maxOut);
      if n > 0 && CopiesInside(|e.ring|, e.offset, n) then
        (e.(offset := (e.offset + n) % UINT32, drained := e.drained + n), Copied(e.ring, e.offset, n))
      else (e, [])
  }

  /** No launch in progress; the ring holds every undrained hit. */
  ghost predicate Quiet(e: Engine) {
    Holds(e.ring, e.writeIdx, e.offset, e.log, e.drained)
  }

  /** A launch of fresh blocks that find at most 64 hits each, fit in the ring, and are run to their end. */
  ghost predicate Allowed(e: Engine, op: Op)
    requires |e.ring| > 0
  {
    match op
    case Launch(blocks, schedule) =>
      && (forall k :: 0 <= k < |blocks| ==> Fresh(blocks[k]) && |Pending(blocks[k].threads)| <= LOCAL_SLOTS)
      && |e.log| + |Total(LaunchHits(blocks))| <= e.drained + |e.ring|
      && var r := Run(Device(e, blocks), schedule);
         forall k :: 0 <= k < |r.blocks| ==> Finished(r.blocks[k])
    case Drain(_) => true
  }

  ghost predicate AllowedRun(e: Engine, ops: seq<Op>)
    decreases |ops|
  {
    |ops| > 0 ==> |e.ring| > 0 && Allowed(e, ops[0]) && AllowedRun(Exec(e, ops[0]).0, ops[1..])
  }

  /** The engine after a run, and everything handed to the host in order. */
  ghost function ExecAll(e: Engine, ops: seq<Op>): (Engine, seq<Hit>)
    requires AllowedRun(e, ops)
    decreases |ops|
  {
    if |ops| == 0 then (e, [])
    else
      var (e1, out) := Exec(e, ops[0]);
      var (e2, rest) := ExecAll(e1, ops[1..]);
      (e2, out + rest)
  }

  function OpHits(op: Op): multiset<Hit> {
    match op
    case Launch(blocks, _) => Total(LaunchHits(blocks))
    case Drain(_) => multiset{}
  }

  /** Every hit found in a run. */
  function Found(ops: seq<Op>): multiset<Hit> {
    if |ops| == 0 then multiset{} else OpHits(ops[0]) + Found(ops[1..])
  }

  /** What one operation does: it appends its hits to the log, and what it hands over is the next part of the log. */
  ghost predicate Advances(e: Engine, e': Engine, out: seq<Hit>, hits: multiset<Hit>) {
    && Quiet(e) && Quiet(e') && e.log <= e'.log && e.drained <= e'.drained
    && out == e'.log[e.drained..e'.drained]
    && multiset(e'.log) == multiset(e.log) + hits
  }

  lemma LaunchedFromQuiet(e: Engine, blocks: seq<Block>, schedule: seq<(nat, nat)>)
    requires Quiet(e) && |e.ring| > 0 && Allowed(e, Launch(blocks, schedule))
    ensures Launched(Device(e, blocks), e.drained)
  {
    hide Slot, Run, Fresh, Pending, Total, LaunchHits, GoodCapacity, Finished;
    forall p | e.drained <= p < |e.log|
      ensures e.ring[Slot(p, |e.ring|)] == e.log[p]
    {
      var i := p - e.drained;
      assert Window(e.ring, e.drained, |e.log| - e.drained)[i] == e.log[e.drained..][i];
    }
  }

  lemma LaunchAdvances(e: Engine, blocks: seq<Block>, schedule: seq<(nat, nat)>)
    requires Quiet(e) && |e.ring| > 0 && Allowed(e, Launch(blocks, schedule))
    ensures
      var (e', out) := Exec(e, Launch(blocks, schedule));
      Advances(e, e', out, Total(LaunchHits(blocks)))
  {
    var s := Device(e, blocks);
    LaunchedFromQuiet(e, blocks, schedule);
    hide Slot, Run, Launched, Total, LaunchHits, GoodCapacity, Finished, Window;
    LaunchDelivers(s, schedule, e.drained);
    LogDelivers(s, schedule, e.drained);
    var r := Run(s, schedule);
    var e' := Engine(r.ring, r.writeIdx, e.offset, r.log, e.drained);
    assert Exec(e, Launch(blocks, schedule)) == (e', []);
    assert Quiet(e');
  }

  lemma DrainAdvances(e: Engine, maxOut: nat)
    requires Quiet(e) && |e.ring| > 0
    ensures
      var (e', out) := Exec(e, Drain(maxOut));
      Advances(e, e', out, multiset{})
  {
    DrainHolds(e.ring, e.writeIdx, e.offset, e.log, e.drained, maxOut);
    QuietBounds(e);
    var n := Due(e.writeIdx, e.offset, maxOut);
    hide Holds, Copied, CopiesInside, Available;
    assert n == 0 ==> e.log[e.drained..e.drained] == [];
    assert multiset(e.log) == multiset(e.log) + multiset{};
  }

  /**
   * Over any run, what the host receives is the hits in the order they were written, from the first undrained one on,
   * with none lost, repeated or out of order; and the hits written are exactly the hits found.
   */
  lemma {:induction false} RunDelivers(e: Engine, ops: seq<Op>)
    requires Quiet(e) && AllowedRun(e, ops)
    ensures
      var (e', out) := ExecAll(e, ops);
      Advances(e, e', out, Found(ops))
    decreases |ops|
  {
    if |ops| == 0 {
      hide Quiet;
      assert multiset(e.log) == multiset(e.log) + multiset{};
    } else {
      OpAdvances(e, ops[0]);
      var (e1, out) := Exec(e, ops[0]);
      hide Exec, Allowed;
      assert Quiet(e1);
      RunDelivers(e1, ops[1..]);
      var (e2, rest) := ExecAll(e1, ops[1..]);
      AdvancesTogether(e, e1, e2, out, rest, OpHits(ops[0]), Found(ops[1..]));
    }
  }

  lemma OpAdvances(e: Engine, op: Op)
    requires Quiet(e) && |e.ring| > 0 && Allowed(e, op)
    ensures var (e', out) := Exec(e, op); Advances(e, e', out, OpHits(op))
  {
    hide Quiet, Advances;
    match op
    case Launch(blocks, schedule) => LaunchAdvances(e, blocks, schedule);
    case Drain(maxOut) => DrainAdvances(e, maxOut);
  }

  lemma AdvancesTogether(e: Engine, e1: Engine, e2: Engine, out: seq<Hit>, rest: seq<Hit>,
                         hits: multiset<Hit>, more: multiset<Hit>)
    requires Advances(e, e1, out, hits) && Advances(e1, e2, rest, more)
    ensures Advances(e, e2, out + rest, hits + more)
  {
    hide Quiet;
    assert e1.drained <= |e1.log| && e2.drained <= |e2.log| by { QuietBounds(e1); QuietBounds(e2); }
    assert e2.log[e.drained..e2.drained] == e2.log[e.drained..e1.drained] + e2.log[e1.drained..e2.drained];
    assert e2.log[e.drained..e1.drained] == e1.log[e.drained..e1.drained];
  }

  lemma QuietBounds(e: Engine)
    requires Quiet(e)
    ensures |e.ring| > 0 && e.drained <= |e.log|
    ensures Window(e.ring, e.drained, |e.log| - e.drained) == e.log[e.drained..]
  {
    hide Window;
  }

  /** From an empty ring, every hit found has been handed over exactly once or is still in the ring. */
  lemma NothingLost(e: Engine, ops: seq<Op>)
    requires Quiet(e) && e.log == [] && e.drained == 0 && AllowedRun(e, ops)
    ensures
      var (e', out) := ExecAll(e, ops);
      && |e'.ring| > 0 && e'.drained <= |e'.log|
      && multiset(out) + multiset(Window(e'.ring, e'.drained, |e'.log| - e'.drained)) == Found(ops)
  {
    hide Quiet, Window, ExecAll, Found, AllowedRun;
    RunDelivers(e, ops);
    var (e', out) := ExecAll(e, ops);
    QuietBounds(e');
    assert e'.log == e'.log[..e'.drained] + e'.log[e'.drained..];
    assert out == e'.log[..e'.drained];
    assert multiset(e.log) == multiset{};
    assert multiset(e'.log) == Found(ops);
  }
}
