/**
 * What a launch reserves in the ring when blocks find more than 64 hits: a position of its own for each hit that found
 * s_count at 64 or more, and at the end as many positions as s_count says.
 */
module HitOverflow {
  import opened Arithmetic
  import opened Words
  import opened HitRing
  import opened HitProtocol
  import opened HitSafety
  import opened HitProgress

  /** How many of n hits found no local slot: those for which the 32-bit s_count stood at 64 or more. */
  function Excess(n: nat): nat {
    if n == 0 then 0 else Excess(n - 1) + (if Counter(n - 1) >= LOCAL_SLOTS then 1 else 0)
  }

  /** All but 64 in every lap of the counter, and in the last lap all past the 64th. */
  lemma {:induction false} ExcessIs(n: nat)
    ensures
      var q, r := n / UINT32, n % UINT32;
      Excess(n) == q * (UINT32 - LOCAL_SLOTS) + (if r > LOCAL_SLOTS then r - LOCAL_SLOTS else 0)
  {
    if n > 0 {
      ExcessIs(n - 1);
      Lap(n - 1);
    }
  }

  lemma Lap(n: nat)
    ensures (n + 1) / UINT32 == n / UINT32 + (if n % UINT32 == UINT32 - 1 then 1 else 0)
    ensures (n + 1) % UINT32 == if n % UINT32 == UINT32 - 1 then 0 else n % UINT32 + 1
  {
    var q, r := n / UINT32, n % UINT32;
    if r == UINT32 - 1 {
      ModUnique(n + 1, UINT32, q + 1, 0);
    } else {
      ModUnique(n + 1, UINT32, q, r + 1);
    }
  }

  /** The positions a block of n hits reserves in all. */
  function Positions(n: nat): nat {
    Excess(n) + Counter(n)
  }

  /** They are as many as the hits for at most 64 of them, and again only where lost and doubled hits cancel out. */
  lemma PositionsExact(n: nat)
    ensures Positions(n) == n <==>
      var q, r := n / UINT32, n % UINT32;
      if q == 0 then r <= LOCAL_SLOTS else r == LOCAL_SLOTS + LOCAL_SLOTS * q
  {
    ExcessIs(n);
  }

  /** The threads that are about to reserve a ring position for one hit. */
  function Spilling(threads: seq<Thread>): nat {
    if |threads| == 0 then 0 else (if threads[0].pc.Spill? then 1 else 0) + Spilling(threads[1..])
  }

  /** The ring positions a block has reserved so far: for single hits, and for its shared buffer. */
  function Taken(b: Block): int {
    Excess(|b.reserved|) - Spilling(b.threads) + (if Flushed(b) then Counter(|b.reserved|) else 0)
  }

  function AllTaken(blocks: seq<Block>): int {
    if |blocks| == 0 then 0 else Taken(blocks[0]) + AllTaken(blocks[1..])
  }

  lemma {:induction false} SpillingUpdate(threads: seq<Thread>, t: nat, th: Thread)
    requires t < |threads|
    ensures Spilling(threads[t := th]) + (if threads[t].pc.Spill? then 1 else 0) ==
      Spilling(threads) + (if th.pc.Spill? then 1 else 0)
  {
    if t == 0 {
      assert threads[t := th][1..] == threads[1..];
    } else {
      assert threads[t := th][1..] == threads[1..][t-1 := th];
      SpillingUpdate(threads[1..], t - 1, th);
    }
  }

  lemma {:induction false} SpillingNone(threads: seq<Thread>)
    requires forall t :: 0 <= t < |threads| ==> !threads[t].pc.Spill?
    ensures Spilling(threads) == 0
  {
    if |threads| > 0 {
      SpillingNone(threads[1..]);
    }
  }

  lemma {:induction false} TakenUpdate(blocks: seq<Block>, k: nat, b: Block)
    requires k < |blocks|
    ensures AllTaken(blocks[k := b]) == AllTaken(blocks) - Taken(blocks[k]) + Taken(b)
  {
    hide Taken;
    if k == 0 {
      assert blocks[k := b][1..] == blocks[1..];
    } else {
      assert blocks[k := b][1..] == blocks[1..][k-1 := b];
      TakenUpdate(blocks[1..], k - 1, b);
    }
  }

  /** How many positions one step reserves. */
  function Reserving(b: Block, t: nat): nat
    requires t < |b.threads|
  {
    if !Reserves(b, t) then 0 else if b.threads[t].pc.Spill? then 1 else b.sCount
  }

  /** A step takes exactly the positions it reserves. */
  lemma TakenStep(b: Block, hits: multiset<Hit>, t: nat, writeIdx: nat, at: nat)
    requires Shape(b, hits) && t < |b.threads|
    ensures Taken(BlockStep(b, t, writeIdx, at)) == Taken(b) + Reserving(b, t)
  {
    hide Counted;
    var b' := BlockStep(b, t, writeIdx, at);
    assert ThreadShape(b, t);
    if b' != b {
      SpillingUpdate(b.threads, t, b'.threads[t]);
      if b.threads[t].pc.Mine? && b.threads[t].todo != [] {
        NotFlushed(b, hits, t);
        assert b.sCount == Counter(|b.reserved|);
        hide Counter, Spilling;
        assert |b'.reserved| == |b.reserved| + 1 && !Flushed(b');
      } else {
        hide Excess, Spilling;
        if Rank(b.threads[t].pc) == 2 {
          NotFlushed(b, hits, t);
        }
      }
    }
  }

  /** While a thread is mining, its block has not flushed. */
  lemma NotFlushed(b: Block, hits: multiset<Hit>, t: nat)
    requires Shape(b, hits) && t < |b.threads| && Rank(b.threads[t].pc) == 2
    ensures AllReached(b, 1) && !Flushed(b)
  {
    assert !AllReached(b, 3);
  }

  /** The log is what the blocks have taken, and the wrapping index follows it. */
  ghost predicate LogIs(s: State, base: nat) {
    |s.log| == base + AllTaken(s.blocks) && s.writeIdx == |s.log| % UINT32
  }

  /** The log and the index grow by the positions a step reserves. */
  lemma StepReserves(s: State, hits: multiset<Hit>, k: nat, t: nat)
    requires |s.ring| > 0 && Names(s, (k, t)) && Shape(s.blocks[k], hits) && s.writeIdx < UINT32
    ensures
      var n, s' := Reserving(s.blocks[k], t), Step(s, k, t);
      && |s'.log| == |s.log| + n && s'.writeIdx == (s.writeIdx + n) % UINT32
      && s'.blocks == s.blocks[k := BlockStep(s.blocks[k], t, s.writeIdx, |s.log|)]
  {
    hide Counted, Barriers, BlockStep;
    var b := s.blocks[k];
    assert ThreadShape(b, t);
    assert Reserves(b, t) && !b.threads[t].pc.Spill? ==> |Buffered(b)| == b.sCount;
  }

  lemma LogStep(s: State, hits: seq<multiset<Hit>>, base: nat, k: nat, t: nat)
    requires Shapes(s, hits) && Names(s, (k, t)) && LogIs(s, base)
    ensures LogIs(Step(s, k, t), base)
  {
    var b, b' := s.blocks[k], BlockStep(s.blocks[k], t, s.writeIdx, |s.log|);
    assert Shape(b, hits[k]);
    hide Shape, Step, BlockStep, Taken, Reserving, Reserves;
    StepReserves(s, hits[k], k, t);
    IndexAdvance(|s.log|, Reserving(b, t));
    TakenUpdate(s.blocks, k, b');
    TakenStep(b, hits[k], t, s.writeIdx, |s.log|);
  }

  lemma {:induction false} LogRun(s: State, hits: seq<multiset<Hit>>, base: nat, schedule: seq<(nat, nat)>)
    requires Shapes(s, hits) && |s.ring| > 0 && LogIs(s, base)
    ensures LogIs(Run(s, schedule), base)
    decreases |schedule|
  {
    hide Shapes, Step, LogIs;
    if |schedule| > 0 {
      var (k, t) := schedule[0];
      if Names(s, schedule[0]) {
        LogStep(s, hits, base, k, t);
        StepShapes(s, hits, k, t);
        StepKeepsRing(s, k, t);
        LogRun(Step(s, k, t), hits, base, schedule[1..]);
      } else {
        LogRun(s, hits, base, schedule[1..]);
      }
    }
  }

  /** The positions the blocks of a launch reserve in all. */
  function Reservations(hits: seq<multiset<Hit>>): nat {
    if |hits| == 0 then 0 else Positions(|hits[0]|) + Reservations(hits[1..])
  }

  lemma TakenAtEnd(b: Block, hits: multiset<Hit>)
    requires Shape(b, hits) && Settled(b)
    ensures Taken(b) == Positions(|hits|)
  {
    forall t | 0 <= t < |b.threads|
      ensures b.threads[t].todo == []
    {
      assert ThreadShape(b, t);
    }
    PendingNone(b.threads);
    assert hits == multiset(b.reserved);
    SpillingNone(b.threads);
  }

  lemma {:induction false} AllTakenAtEnd(blocks: seq<Block>, hits: seq<multiset<Hit>>)
    requires |blocks| == |hits|
    requires forall k :: 0 <= k < |blocks| ==> Shape(blocks[k], hits[k]) && Settled(blocks[k])
    ensures AllTaken(blocks) == Reservations(hits)
  {
    hide Shape, Settled, Taken;
    if |blocks| > 0 {
      TakenAtEnd(blocks[0], hits[0]);
      AllTakenAtEnd(blocks[1..], hits[1..]);
    }
  }

  lemma {:induction false} NothingTaken(blocks: seq<Block>)
    requires forall k :: 0 <= k < |blocks| ==> Fresh(blocks[k])
    ensures AllTaken(blocks) == 0
  {
    if |blocks| > 0 {
      SpillingNone(blocks[0].threads);
      NothingTaken(blocks[1..]);
    }
  }

  lemma {:induction false} ReservationsExact(hits: seq<multiset<Hit>>)
    requires forall k :: 0 <= k < |hits| ==> |hits[k]| < UINT32
    ensures Reservations(hits) >= |Total(hits)|
    ensures Reservations(hits) == |Total(hits)| <==> forall k :: 0 <= k < |hits| ==> |hits[k]| <= LOCAL_SLOTS
  {
    if |hits| > 0 {
      ExcessIs(|hits[0]|);
      hide Excess;
      ReservationsExact(hits[1..]);
      assert forall k :: 0 < k < |hits| ==> hits[k] == hits[1..][k-1];
      assert forall k :: 0 <= k < |hits[1..]| ==> hits[1..][k] == hits[k+1];
    }
  }

  /**
   * However a launch is scheduled, once its blocks have settled the index has advanced by the positions they reserve.
   * While no block finds 2^32 hits, that is the number of hits if and only if no block found more than 64.
   */
  lemma LaunchReserves(s: State, schedule: seq<(nat, nat)>)
    requires |s.ring| > 0 && forall k :: 0 <= k < |s.blocks| ==> Fresh(s.blocks[k])
    requires s.writeIdx == |s.log| % UINT32 && AllSettled(Run(s, schedule))
    ensures
      var r, hits := Run(s, schedule), LaunchHits(s.blocks);
      && |r.log| == |s.log| + Reservations(hits) && r.writeIdx == |r.log| % UINT32
      && ((forall k :: 0 <= k < |hits| ==> |hits[k]| < UINT32) ==>
          (|r.log| == |s.log| + |Total(hits)| <==> forall k :: 0 <= k < |hits| ==> |hits[k]| <= LOCAL_SLOTS))
  {
    var hits := LaunchHits(s.blocks);
    LaunchShapes(s);
    NothingTaken(s.blocks);
    hide Run, Shape, Settled, LaunchHits, Fresh;
    LogRun(s, hits, |s.log|, schedule);
    RunShapes(s, schedule, hits);
    AllTakenAtEnd(Run(s, schedule).blocks, hits);
    if forall k :: 0 <= k < |hits| ==> |hits[k]| < UINT32 {
      ReservationsExact(hits);
    }
  }

  /** The block that hits with all of its 2^32 nonces finishes and loses the 64 hits of its shared buffer. */
  lemma WrappedLoses64(ring: seq<Hit>, slots: seq<Hit>, schedule: seq<(nat, nat)>)
    requires |ring| > 0 && |slots| == LOCAL_SLOTS
    ensures
      var s := State([Finding(256, 0x100_0000, slots)], ring, 0, []);
      AllSettled(Run(s, schedule)) ==> |Run(s, schedule).log| == UINT32 - LOCAL_SLOTS
  {
    var s := State([Finding(256, 0x100_0000, slots)], ring, 0, []);
    PendingSize(s.blocks[0].threads, 0x100_0000);
    ExcessIs(UINT32);
    hide Run, Pending, Excess, AllSettled;
    var hits := LaunchHits(s.blocks);
    assert Reservations(hits) == Positions(UINT32) + Reservations([]) by { assert hits[1..] == []; }
    if AllSettled(Run(s, schedule)) {
      LaunchReserves(s, schedule);
    }
  }
}
