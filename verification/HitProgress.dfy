/**
 * How every launch ends, with no bound on the hits of a block: within finitely many rounds of any schedule, a block has
 * finished if its 32-bit s_count says at most 64, and stands before a read past its shared buffer if it says more.
 */
module HitProgress {
  import opened Arithmetic
  import opened Words
  import opened HitRing
  import opened HitProtocol
  import opened HitSafety

  /** An upper bound on the steps a thread has left. */
  function Left(th: Thread): nat {
    match th.pc
    case Enter => 69 + 3 * |th.todo|
    case Wait1 => 68 + 3 * |th.todo|
    case Mine => 67 + 3 * |th.todo|
    case Store(_, _) => 68 + 3 * |th.todo|
    case Spill(_) => 69 + 3 * |th.todo|
    case SpillWrite(_, _) => 68 + 3 * |th.todo|
    case Wait2 => 66
    case Flush(_, i) => if i <= 64 then 65 - i else 1
    case Done => 0
  }

  function ThreadsLeft(threads: seq<Thread>): nat {
    if |threads| == 0 then 0 else Left(threads[0]) + ThreadsLeft(threads[1..])
  }

  function BlocksLeft(blocks: seq<Block>): nat {
    if |blocks| == 0 then 0 else ThreadsLeft(blocks[0].threads) + BlocksLeft(blocks[1..])
  }

  lemma {:induction false} ThreadsLeftUpdate(threads: seq<Thread>, t: nat, th: Thread)
    requires t < |threads|
    ensures ThreadsLeft(threads[t := th]) == ThreadsLeft(threads) - Left(threads[t]) + Left(th)
  {
    hide Left;
    if t == 0 {
      assert threads[t := th][1..] == threads[1..];
    } else {
      assert threads[t := th][1..] == threads[1..][t-1 := th];
      ThreadsLeftUpdate(threads[1..], t - 1, th);
    }
  }

  lemma {:induction false} BlocksLeftUpdate(blocks: seq<Block>, k: nat, b: Block)
    requires k < |blocks|
    ensures BlocksLeft(blocks[k := b]) == BlocksLeft(blocks) - ThreadsLeft(blocks[k].threads) + ThreadsLeft(b.threads)
  {
    hide ThreadsLeft;
    if k == 0 {
      assert blocks[k := b][1..] == blocks[1..];
    } else {
      assert blocks[k := b][1..] == blocks[1..][k-1 := b];
      BlocksLeftUpdate(blocks[1..], k - 1, b);
    }
  }

  // ---- One block ----

  /** What s_count says after n hits. */
  function Counter(n: nat): word {
    n % UINT32
  }

  ghost predicate ThreadShape(b: Block, t: nat)
    requires t < |b.threads|
  {
    var th := b.threads[t];
    && (Rank(th.pc) >= 3 ==> th.todo == [])
    && match th.pc {
         case Store(li, _) => li < LOCAL_SLOTS
         case Flush(_, i) => t == 0 && i <= LOCAL_SLOTS && i <= b.sCount
         case _ => true
       }
  }

  /** What every step of a block keeps, however many hits it finds. */
  ghost predicate Shape(b: Block, hits: multiset<Hit>) {
    && |b.sHits| == LOCAL_SLOTS
    && CountInv(b)
    && Barriers(b)
    && Counted(b, hits)
    && (forall t :: 0 <= t < |b.threads| ==> ThreadShape(b, t))
    && (b.threads[0].pc.Done? ==> Counter(|b.reserved|) <= LOCAL_SLOTS)
  }

  lemma FreshShape(b: Block)
    requires Fresh(b)
    ensures Shape(b, Pending(b.threads))
  {
    assert multiset(b.reserved) == multiset{};
  }

  /** Finding a hit, whether a local slot is left for it or not. */
  lemma FindShape(b: Block, hits: multiset<Hit>, t: nat, writeIdx: nat, at: nat)
    requires Shape(b, hits) && t < |b.threads| && b.threads[t].pc.Mine? && b.threads[t].todo != []
    ensures Shape(BlockStep(b, t, writeIdx, at), hits)
  {
    var b' := BlockStep(b, t, writeIdx, at);
    assert AllReached(b, 1) && Rank(b.threads[t].pc) < 3;
    FindCounted(b, hits, t, b');
    hide Counted;
    assert Moves(b, t, b');
    BarriersKept(b, t, b');
    hide Barriers;
    forall u | 0 <= u < |b'.threads|
      ensures ThreadShape(b', u)
    {
      assert ThreadShape(b, u);
    }
  }

  /** Changing only the place of one thread, and local slots. */
  lemma PlaceShape(b: Block, hits: multiset<Hit>, t: nat, b': Block)
    requires Shape(b, hits) && Moves(b, t, b') && |b'.sHits| == LOCAL_SLOTS
    requires b'.reserved == b.reserved && b'.threads[t].todo == b.threads[t].todo
    requires b'.sCount == (if b.threads[0].pc.Enter? && t == 0 then 0 else b.sCount)
    requires ThreadShape(b', t) && !b'.threads[t].pc.Enter?
    requires b'.threads[t].pc.Done? && t == 0 ==> Counter(|b.reserved|) <= LOCAL_SLOTS
    ensures Shape(b', hits)
  {
    CountedKept(b, hits, t, b');
    hide Counted;
    BarriersKept(b, t, b');
    hide Barriers;
    forall u | 0 <= u < |b'.threads|
      ensures ThreadShape(b', u)
    {
      assert ThreadShape(b, u);
    }
  }

  /** Every step of any thread keeps the shape of its block. */
  lemma ShapeStep(b: Block, hits: multiset<Hit>, t: nat, writeIdx: nat, at: nat)
    requires Shape(b, hits) && t < |b.threads|
    ensures Shape(BlockStep(b, t, writeIdx, at), hits)
  {
    var b' := BlockStep(b, t, writeIdx, at);
    assert ThreadShape(b, t);
    if b' == b {
    } else if b.threads[t].pc.Mine? && b.threads[t].todo != [] {
      FindShape(b, hits, t, writeIdx, at);
    } else {
      hide Counted, Pending;
      if Rank(b.threads[t].pc) >= 2 {
        assert AllReached(b, 1);
      }
      if b.threads[t].pc.Flush? {
        assert AllReached(b, 3);
      }
      PlaceShape(b, hits, t, b');
    }
  }

  /** A step that changes the block brings it closer to its end. */
  lemma BlockStepDecreases(b: Block, hits: multiset<Hit>, t: nat, writeIdx: nat, at: nat)
    requires Shape(b, hits) && t < |b.threads|
    ensures
      var b' := BlockStep(b, t, writeIdx, at);
      b' == b || ThreadsLeft(b'.threads) < ThreadsLeft(b.threads)
  {
    var b' := BlockStep(b, t, writeIdx, at);
    assert ThreadShape(b, t);
    if b' != b {
      ThreadsLeftUpdate(b.threads, t, b'.threads[t]);
      assert Left(b'.threads[t]) < Left(b.threads[t]);
    }
  }

  /** Thread 0 is about to read a hit behind the last of the shared slots. */
  predicate Overrun(b: Block) {
    |b.threads| > 0 && b.threads[0].pc.Flush? && LOCAL_SLOTS <= b.threads[0].pc.i < b.sCount
  }

  /** No thread has anything left to do inside the shared buffer. */
  predicate Settled(b: Block) {
    && |b.threads| > 0
    && (forall t :: 0 < t < |b.threads| ==> b.threads[t].pc.Done?)
    && (b.threads[0].pc.Done? || Overrun(b))
  }

  /** In an unsettled block some thread can move: the barriers never wait for a thread that cannot arrive. */
  lemma BlockMoves(b: Block, hits: multiset<Hit>, writeIdx: nat, at: nat) returns (t: nat)
    requires Shape(b, hits) && !Settled(b)
    ensures t < |b.threads| && BlockStep(b, t, writeIdx, at) != b
  {
    if !AllReached(b, 1) {
      t :| 0 <= t < |b.threads| && Rank(b.threads[t].pc) < 1;
    } else if !AllReached(b, 3) {
      t :| 0 <= t < |b.threads| && Rank(b.threads[t].pc) < 3;
      assert ThreadShape(b, t);
    } else if exists u :: 0 < u < |b.threads| && !b.threads[u].pc.Done? {
      t :| 0 < t < |b.threads| && !b.threads[t].pc.Done?;
      assert ThreadShape(b, t);
    } else {
      t := 0;
    }
    assert BlockStep(b, t, writeIdx, at).threads[t] != b.threads[t];
  }

  /** Which way a block settles depends only on how many hits it has found, modulo 2^32. */
  lemma SettledIs(b: Block, hits: multiset<Hit>)
    requires Shape(b, hits) && Settled(b)
    ensures Finished(b) <==> Counter(|hits|) <= LOCAL_SLOTS
    ensures Overrun(b) <==> Counter(|hits|) > LOCAL_SLOTS
  {
    forall t | 0 <= t < |b.threads|
      ensures b.threads[t].todo == []
    {
      assert ThreadShape(b, t);
    }
    PendingNone(b.threads);
    assert hits == multiset(b.reserved);
  }

  lemma FinishedFits(b: Block, hits: multiset<Hit>)
    requires Shape(b, hits) && Finished(b)
    ensures Counter(|hits|) <= LOCAL_SLOTS
  {
    SettledIs(b, hits);
  }

  lemma SettledStays(b: Block, t: nat, writeIdx: nat, at: nat)
    requires Settled(b) && t < |b.threads| && |b.sHits| == LOCAL_SLOTS
    ensures BlockStep(b, t, writeIdx, at) == b
  {
  }

  // ---- The whole launch ----

  ghost predicate Shapes(s: State, hits: seq<multiset<Hit>>) {
    |s.ring| > 0 && |hits| == |s.blocks| && forall k :: 0 <= k < |s.blocks| ==> Shape(s.blocks[k], hits[k])
  }

  /** Choice (k, t) names a thread. */
  predicate Names(s: State, c: (nat, nat)) {
    c.0 < |s.blocks| && c.1 < |s.blocks[c.0].threads| && |s.blocks[c.0].sHits| == LOCAL_SLOTS
  }

  lemma StepShapes(s: State, hits: seq<multiset<Hit>>, k: nat, t: nat)
    requires Shapes(s, hits) && Names(s, (k, t))
    ensures Shapes(Step(s, k, t), hits)
    ensures SameThreads(s.blocks, Step(s, k, t).blocks)
  {
    var b' := BlockStep(s.blocks[k], t, s.writeIdx, |s.log|);
    assert Step(s, k, t).blocks == s.blocks[k := b'];
    StepKeepsRing(s, k, t);
    ShapeStep(s.blocks[k], hits[k], t, s.writeIdx, |s.log|);
    assert |b'.threads| == |s.blocks[k].threads|;
    hide Step, BlockStep, Shape;
  }

  predicate SameThreads(blocks: seq<Block>, blocks': seq<Block>) {
    |blocks'| == |blocks| && forall k :: 0 <= k < |blocks| ==> |blocks'[k].threads| == |blocks[k].threads|
  }

  lemma {:induction false} RunShapes(s: State, schedule: seq<(nat, nat)>, hits: seq<multiset<Hit>>)
    requires Shapes(s, hits)
    ensures Shapes(Run(s, schedule), hits) && SameThreads(s.blocks, Run(s, schedule).blocks)
    decreases |schedule|
  {
    hide Shapes, Step;
    assert |s.ring| > 0 by { ShapesRing(s, hits); }
    if |schedule| > 0 {
      var (k, t) := schedule[0];
      if Names(s, schedule[0]) {
        StepShapes(s, hits, k, t);
        RunShapes(Step(s, k, t), schedule[1..], hits);
      } else {
        RunShapes(s, schedule[1..], hits);
      }
    }
  }

  lemma ShapesRing(s: State, hits: seq<multiset<Hit>>)
    requires Shapes(s, hits)
    ensures |s.ring| > 0
  {
  }

  lemma LaunchShapes(s: State)
    requires |s.ring| > 0 && forall k :: 0 <= k < |s.blocks| ==> Fresh(s.blocks[k])
    ensures Shapes(s, LaunchHits(s.blocks))
  {
    forall k | 0 <= k < |s.blocks|
      ensures Shape(s.blocks[k], LaunchHits(s.blocks)[k])
    {
      FreshShape(s.blocks[k]);
    }
  }

  /** Thread t of block k exists and its next step changes the block. */
  ghost predicate Moving(s: State, k: nat, t: nat) {
    && k < |s.blocks| && t < |s.blocks[k].threads| && |s.blocks[k].sHits| == LOCAL_SLOTS
    && BlockStep(s.blocks[k], t, s.writeIdx, |s.log|) != s.blocks[k]
  }

  lemma NotMoving(s: State, k: nat, t: nat)
    requires |s.ring| > 0 && Names(s, (k, t)) && !Moving(s, k, t)
    ensures Step(s, k, t) == s
  {
    assert s.blocks[k := s.blocks[k]] == s.blocks;
  }

  /** No reachable state of a launch is stuck before every block has settled. */
  lemma NoDeadlock(s: State, hits: seq<multiset<Hit>>) returns (k: nat, t: nat)
    requires Shapes(s, hits)
    requires exists j :: 0 <= j < |s.blocks| && !Settled(s.blocks[j])
    ensures Moving(s, k, t)
  {
    k :| 0 <= k < |s.blocks| && !Settled(s.blocks[k]);
    assert Shape(s.blocks[k], hits[k]) && |s.blocks[k].sHits| == LOCAL_SLOTS;
    hide Shape, BlockStep, Settled;
    t := BlockMoves(s.blocks[k], hits[k], s.writeIdx, |s.log|);
  }

  lemma MovingDecreases(s: State, hits: seq<multiset<Hit>>, k: nat, t: nat)
    requires Shapes(s, hits) && Moving(s, k, t)
    ensures BlocksLeft(Step(s, k, t).blocks) < BlocksLeft(s.blocks)
  {
    var b' := BlockStep(s.blocks[k], t, s.writeIdx, |s.log|);
    assert Step(s, k, t).blocks == s.blocks[k := b'];
    hide Shape, Step, BlockStep;
    BlockStepDecreases(s.blocks[k], hits[k], t, s.writeIdx, |s.log|);
    BlocksLeftUpdate(s.blocks, k, b');
  }

  ghost predicate AllSettled(s: State) {
    forall k :: 0 <= k < |s.blocks| ==> Settled(s.blocks[k])
  }

  lemma {:induction false} SettledRun(s: State, schedule: seq<(nat, nat)>)
    requires |s.ring| > 0 && AllSettled(s)
    ensures Run(s, schedule) == s
    decreases |schedule|
  {
    if |schedule| > 0 {
      var (k, t) := schedule[0];
      if Names(s, schedule[0]) {
        SettledStays(s.blocks[k], t, s.writeIdx, |s.log|);
        NotMoving(s, k, t);
      }
      hide Step, BlockStep;
      SettledRun(s, schedule[1..]);
    }
  }

  /** From any reachable state of a launch some schedule settles every block. */
  lemma {:induction false} CanSettle(s: State, hits: seq<multiset<Hit>>) returns (schedule: seq<(nat, nat)>)
    requires Shapes(s, hits)
    ensures |s.ring| > 0 && AllSettled(Run(s, schedule))
    decreases BlocksLeft(s.blocks)
  {
    ShapesRing(s, hits);
    if AllSettled(s) {
      schedule := [];
    } else {
      hide Shapes, Step, Settled, BlocksLeft, BlockStep;
      var k, t := NoDeadlock(s, hits);
      MovingDecreases(s, hits, k, t);
      StepShapes(s, hits, k, t);
      StepKeepsRing(s, k, t);
      var rest := CanSettle(Step(s, k, t), hits);
      schedule := [(k, t)] + rest;
      RunFirst(s, k, t, rest);
    }
  }

  lemma RunFirst(s: State, k: nat, t: nat, rest: seq<(nat, nat)>)
    requires |s.ring| > 0 && Moving(s, k, t) && |Step(s, k, t).ring| > 0
    ensures Run(s, [(k, t)] + rest) == Run(Step(s, k, t), rest)
  {
    hide Step, BlockStep;
    assert ([(k, t)] + rest)[1..] == rest;
  }

  lemma {:induction false} RunInParts(s: State, first: seq<(nat, nat)>, rest: seq<(nat, nat)>)
    requires |s.ring| > 0
    ensures |Run(s, first).ring| > 0
    ensures Run(s, first + rest) == Run(Run(s, first), rest)
    decreases |first|
  {
    hide Step, BlockStep;
    if |first| == 0 {
      assert first + rest == rest;
    } else {
      var (k, t) := first[0];
      assert (first + rest)[0] == first[0] && (first + rest)[1..] == first[1..] + rest;
      if k < |s.blocks| && t < |s.blocks[k].threads| && |s.blocks[k].sHits| == LOCAL_SLOTS {
        StepKeepsRing(s, k, t);
        RunInParts(Step(s, k, t), first[1..], rest);
      } else {
        RunInParts(s, first[1..], rest);
      }
    }
  }

  /** Whatever part of such a launch has been scheduled, it can be continued to the end of every block. */
  lemma LaunchCanFinish(s: State, first: seq<(nat, nat)>) returns (rest: seq<(nat, nat)>)
    requires |s.ring| > 0
    requires forall k :: 0 <= k < |s.blocks| ==>
      Fresh(s.blocks[k]) && Counter(|Pending(s.blocks[k].threads)|) <= LOCAL_SLOTS
    ensures forall k :: 0 <= k < |Run(s, first + rest).blocks| ==> Finished(Run(s, first + rest).blocks[k])
  {
    var hits := LaunchHits(s.blocks);
    LaunchShapes(s);
    RunShapes(s, first, hits);
    rest := CanSettle(Run(s, first), hits);
    RunInParts(s, first, rest);
    RunShapes(Run(s, first), rest, hits);
    hide Run, Shape, Finished, Settled, Pending;
    forall k | 0 <= k < |Run(s, first + rest).blocks|
      ensures Finished(Run(s, first + rest).blocks[k])
    {
      SettledIs(Run(s, first + rest).blocks[k], hits[k]);
    }
  }

  // ---- Every schedule ----

  /** The choices name every thread of every block at least once. */
  ghost predicate Round(blocks: seq<Block>, choices: seq<(nat, nat)>) {
    forall k: nat, t: nat :: k < |blocks| && t < |blocks[k].threads| ==> (k, t) in choices
  }

  function Concat(rounds: seq<seq<(nat, nat)>>): seq<(nat, nat)> {
    if |rounds| == 0 then [] else rounds[0] + Concat(rounds[1..])
  }

  /** No schedule takes a launch further from its end, and one that names a thread that can move takes it nearer. */
  lemma {:induction false} RunDecreases(s: State, hits: seq<multiset<Hit>>, schedule: seq<(nat, nat)>)
    requires Shapes(s, hits) && |s.ring| > 0
    ensures BlocksLeft(Run(s, schedule).blocks) <= BlocksLeft(s.blocks)
    ensures (exists k, t :: (k, t) in schedule && Moving(s, k, t)) ==>
      BlocksLeft(Run(s, schedule).blocks) < BlocksLeft(s.blocks)
    decreases |schedule|
  {
    hide Shapes, Step, BlocksLeft;
    if |schedule| > 0 {
      var (k, t) := schedule[0];
      if Moving(s, k, t) {
        MovingDecreases(s, hits, k, t);
        StepShapes(s, hits, k, t);
        StepKeepsRing(s, k, t);
        RunDecreases(Step(s, k, t), hits, schedule[1..]);
      } else {
        if Names(s, (k, t)) {
          NotMoving(s, k, t);
        }
        RunDecreases(s, hits, schedule[1..]);
        assert forall c :: c in schedule ==> c == (k, t) || c in schedule[1..];
      }
    }
  }

  /** Any schedule settles every block within as many rounds as there are steps left, whatever the order in a round. */
  lemma {:induction false} RoundsSettle(s: State, hits: seq<multiset<Hit>>, rounds: seq<seq<(nat, nat)>>)
    requires Shapes(s, hits) && |s.ring| > 0
    requires |rounds| >= BlocksLeft(s.blocks) && forall i :: 0 <= i < |rounds| ==> Round(s.blocks, rounds[i])
    ensures AllSettled(Run(s, Concat(rounds)))
    decreases |rounds|
  {
    hide Shapes, Run, BlocksLeft, Settled;
    if AllSettled(s) {
      SettledRun(s, Concat(rounds));
    } else {
      var k, t := NoDeadlock(s, hits);
      MovingDecreases(s, hits, k, t);
      RunDecreases(s, hits, rounds[0]);
      RunShapes(s, rounds[0], hits);
      ShapesRing(Run(s, rounds[0]), hits);
      assert (k, t) in rounds[0];
      RunInParts(s, rounds[0], Concat(rounds[1..]));
      RoundsSettle(Run(s, rounds[0]), hits, rounds[1..]);
    }
  }

  /**
   * How every launch ends, over any ring and under any schedule of enough rounds: a block has finished if and only if
   * the number of its hits modulo 2^32 is at most 64, and stands before a read past its shared buffer if and only if
   * that number is larger.
   */
  lemma LaunchEnds(s: State, rounds: seq<seq<(nat, nat)>>)
    requires |s.ring| > 0 && forall k :: 0 <= k < |s.blocks| ==> Fresh(s.blocks[k])
    requires |rounds| >= BlocksLeft(s.blocks) && forall i :: 0 <= i < |rounds| ==> Round(s.blocks, rounds[i])
    ensures |Run(s, Concat(rounds)).blocks| == |s.blocks|
    ensures forall k :: 0 <= k < |s.blocks| ==>
      var b := Run(s, Concat(rounds)).blocks[k];
      && (Finished(b) <==> Counter(|Pending(s.blocks[k].threads)|) <= LOCAL_SLOTS)
      && (Overrun(b) <==> Counter(|Pending(s.blocks[k].threads)|) > LOCAL_SLOTS)
  {
    var hits, r := LaunchHits(s.blocks), Run(s, Concat(rounds));
    LaunchShapes(s);
    RoundsSettle(s, hits, rounds);
    RunShapes(s, Concat(rounds), hits);
    hide Run, Shape, Settled, Finished, Overrun, Pending;
    forall k | 0 <= k < |s.blocks|
      ensures Finished(r.blocks[k]) <==> Counter(|hits[k]|) <= LOCAL_SLOTS
      ensures Overrun(r.blocks[k]) <==> Counter(|hits[k]|) > LOCAL_SLOTS
    {
      SettledIs(r.blocks[k], hits[k]);
    }
  }

  /** Some schedule runs a block to its end if and only if the number of its hits modulo 2^32 is at most 64. */
  lemma FinishIff(s: State, k: nat)
    requires |s.ring| > 0 && k < |s.blocks| && forall j :: 0 <= j < |s.blocks| ==> Fresh(s.blocks[j])
    ensures forall schedule :: |Run(s, schedule).blocks| == |s.blocks|
    ensures (exists schedule :: Finished(Run(s, schedule).blocks[k])) <==>
      Counter(|Pending(s.blocks[k].threads)|) <= LOCAL_SLOTS
  {
    var hits := LaunchHits(s.blocks);
    LaunchShapes(s);
    forall schedule
      ensures Shapes(Run(s, schedule), hits)
    {
      RunShapes(s, schedule, hits);
    }
    var ending := CanSettle(s, hits);
    hide Run, Shape, Settled, Finished, Overrun, Pending;
    SettledIs(Run(s, ending).blocks[k], hits[k]);
    if schedule :| Finished(Run(s, schedule).blocks[k]) {
      FinishedFits(Run(s, schedule).blocks[k], hits[k]);
    }
  }

  /** A block of n threads that find m hits each. */
  function Finding(n: nat, m: nat, slots: seq<Hit>): Block {
    Block(seq(n, _ => Thread(Enter, seq(m, (i: nat) => Hit(1, i)))), 0, slots, [], 0)
  }

  lemma {:induction false} PendingSize(threads: seq<Thread>, m: nat)
    requires forall t :: 0 <= t < |threads| ==> |threads[t].todo| == m
    ensures |Pending(threads)| == |threads| * m
  {
    if |threads| > 0 {
      PendingSize(threads[1..], m);
      MulNext(|threads[1..]|, m);
      hide Pending;
    }
  }

  /** No schedule runs a block of 65 hits to its end. */
  lemma SixtyFiveNeverFinishes(ring: seq<Hit>, slots: seq<Hit>, schedule: seq<(nat, nat)>)
    requires |ring| > 0 && |slots| == LOCAL_SLOTS
    ensures
      var s := State([Finding(1, 65, slots)], ring, 0, []);
      |Run(s, schedule).blocks| == 1 && !Finished(Run(s, schedule).blocks[0])
  {
    var s := State([Finding(1, 65, slots)], ring, 0, []);
    PendingSize(s.blocks[0].threads, 65);
    hide Run, Finished, Pending;
    FinishIff(s, 0);
  }

  /** 256 threads that hit with each of 2^24 nonces bring s_count back to zero: that block finishes. */
  lemma WrappedFinishes(ring: seq<Hit>, slots: seq<Hit>)
    requires |ring| > 0 && |slots| == LOCAL_SLOTS
    ensures
      var s := State([Finding(256, 0x100_0000, slots)], ring, 0, []);
      && |Pending(s.blocks[0].threads)| == UINT32
      && (forall schedule :: |Run(s, schedule).blocks| == 1)
      && exists schedule :: Finished(Run(s, schedule).blocks[0])
  {
    var s := State([Finding(256, 0x100_0000, slots)], ring, 0, []);
    PendingSize(s.blocks[0].threads, 0x100_0000);
    hide Run, Finished, Pending;
    FinishIff(s, 0);
  }
}
