/** What every interleaving of the hit commit protocol keeps, and what the finished ring holds. */
module HitSafety {
  import opened Words
  import opened HitRing
  import opened HitProtocol

  // ---- One block ----

  ghost predicate ThreadInv(b: Block, t: nat)
    requires t < |b.threads|
  {
    var th := b.threads[t];
    && (Rank(th.pc) >= 3 ==> th.todo == [])
    && match th.pc {
         case Store(li, hit) => li < |b.reserved| && b.reserved[li] == hit
         case Spill(_) => false
         case SpillWrite(_, _) => false
         case Flush(start, i) => t == 0 && i <= b.sCount && start == b.at % UINT32
         case _ => true
       }
  }

  /** Local slot k holds its hit, or the thread that reserved it is about to write it. */
  ghost predicate SlotInv(b: Block, k: nat)
    requires k < |b.reserved| <= |b.sHits|
  {
    || b.sHits[k] == b.reserved[k]
    || exists t :: 0 <= t < |b.threads| && b.threads[t].pc == Store(k, b.reserved[k])
  }

  ghost predicate Barriers(b: Block) {
    && (forall t :: 0 <= t < |b.threads| && Rank(b.threads[t].pc) >= 2 ==> AllReached(b, 1))
    && (forall t :: 0 <= t < |b.threads| && Rank(b.threads[t].pc) >= 4 ==> AllReached(b, 3))
  }

  ghost predicate ThreadsInv(b: Block) {
    forall t :: 0 <= t < |b.threads| ==> ThreadInv(b, t)
  }

  ghost predicate SlotsInv(b: Block) {
    && |b.reserved| <= |b.sHits| == LOCAL_SLOTS
    && forall k :: 0 <= k < |b.reserved| ==> SlotInv(b, k)
  }

  /** No hit is lost or made up inside the block: what is reserved and what is pending make up its hits. */
  ghost predicate Counted(b: Block, hits: multiset<Hit>) {
    multiset(b.reserved) + Pending(b.threads) == hits
  }

  /** Thread 0 clears s_count before it is used; after that it counts the hits, in 32 bits. */
  ghost predicate CountInv(b: Block) {
    && |b.threads| > 0
    && (b.threads[0].pc.Enter? ==> b.reserved == [])
    && (!b.threads[0].pc.Enter? ==> b.sCount == |b.reserved| % UINT32)
  }

  ghost predicate BlockInv(b: Block, hits: multiset<Hit>) {
    && CountInv(b)
    && Barriers(b)
    && Counted(b, hits)
    && ThreadsInv(b)
    && SlotsInv(b)
  }

  lemma {:induction false} PendingHas(threads: seq<Thread>, t: nat)
    requires t < |threads|
    ensures multiset(threads[t].todo) <= Pending(threads)
  {
    if t > 0 {
      PendingHas(threads[1..], t - 1);
    }
  }

  lemma {:induction false} PendingUpdate(threads: seq<Thread>, t: nat, th: Thread)
    requires t < |threads|
    ensures multiset(threads[t].todo) <= Pending(threads)
    ensures Pending(threads[t := th]) == Pending(threads) - multiset(threads[t].todo) + multiset(th.todo)
  {
    var m, rest := multiset(threads[0].todo), threads[1..];
    var x, y := multiset(threads[t].todo), multiset(th.todo);
    var threads' := threads[t := th];
    assert Pending(threads) == m + Pending(rest);
    assert Pending(threads') == multiset(threads'[0].todo) + Pending(threads'[1..]);
    hide Pending;
    if t == 0 {
      assert threads'[1..] == rest;
      Replace(x, y, Pending(rest));
    } else {
      assert threads'[1..] == rest[t-1 := th];
      PendingUpdate(rest, t - 1, th);
      Exchange(m, Pending(rest), x, y);
    }
  }

  lemma Replace(x: multiset<Hit>, y: multiset<Hit>, p: multiset<Hit>)
    ensures x <= x + p && y + p == x + p - x + y
  {
  }

  lemma Exchange(m: multiset<Hit>, p: multiset<Hit>, x: multiset<Hit>, y: multiset<Hit>)
    requires x <= p
    ensures x <= m + p && m + (p - x + y) == m + p - x + y
  {
  }

  lemma {:induction false} PendingNone(threads: seq<Thread>)
    requires forall t :: 0 <= t < |threads| ==> threads[t].todo == []
    ensures Pending(threads) == multiset{}
  {
    if |threads| > 0 {
      PendingNone(threads[1..]);
    }
  }

  lemma FreshInv(b: Block)
    requires Fresh(b)
    ensures BlockInv(b, Pending(b.threads))
  {
    assert multiset(b.reserved) == multiset{};
    assert multiset(b.reserved) + Pending(b.threads) == Pending(b.threads);
  }

  /** b' is b with thread t moved forward, within what the barriers allow. */
  ghost predicate Moves(b: Block, t: nat, b': Block) {
    && t < |b.threads| == |b'.threads| && b'.threads == b.threads[t := b'.threads[t]]
    && Rank(b'.threads[t].pc) >= Rank(b.threads[t].pc)
    && (Rank(b'.threads[t].pc) >= 2 ==> AllReached(b, 1))
    && (Rank(b'.threads[t].pc) >= 4 ==> AllReached(b, 3))
  }

  lemma BarriersKept(b: Block, t: nat, b': Block)
    requires Barriers(b) && Moves(b, t, b')
    ensures Barriers(b')
  {
    assert AllReached(b, 1) ==> AllReached(b', 1);
    assert AllReached(b, 3) ==> AllReached(b', 3);
  }

  /** A local slot keeps its hit or its writer while another thread moves. */
  lemma SlotKept(b: Block, t: nat, b': Block, k: nat)
    requires SlotsInv(b) && Moves(b, t, b') && k < |b.reserved| <= |b'.reserved| <= |b'.sHits|
    requires b'.reserved[k] == b.reserved[k] && b'.sHits[k] == b.sHits[k]
    requires b.threads[t].pc != Store(k, b.reserved[k])
    ensures SlotInv(b', k)
  {
    assert SlotInv(b, k);
    if b.sHits[k] != b.reserved[k] {
      var u :| 0 <= u < |b.threads| && b.threads[u].pc == Store(k, b.reserved[k]);
      assert b'.threads[u] == b.threads[u];
    }
  }

  lemma CountedKept(b: Block, hits: multiset<Hit>, t: nat, b': Block)
    requires Counted(b, hits) && Moves(b, t, b')
    requires b'.reserved == b.reserved && b'.threads[t].todo == b.threads[t].todo
    ensures Counted(b', hits)
  {
    PendingUpdate(b.threads, t, b'.threads[t]);
    assert Pending(b'.threads) == Pending(b.threads);
  }

  /** Changing only the place of one thread. */
  lemma MoveThread(b: Block, hits: multiset<Hit>, t: nat, b': Block)
    requires BlockInv(b, hits) && Moves(b, t, b')
    requires b'.sHits == b.sHits && b'.reserved == b.reserved && b'.threads[t].todo == b.threads[t].todo
    requires b'.sCount == (if b.threads[0].pc.Enter? && t == 0 then 0 else b.sCount)
    requires !b.threads[t].pc.Store? && ThreadInv(b', t) && !b'.threads[t].pc.Enter?
    requires b'.at == b.at || !b.threads[0].pc.Flush?
    ensures BlockInv(b', hits)
  {
    CountedKept(b, hits, t, b');
    hide Counted;
    BarriersKept(b, t, b');
    hide Barriers;
    assert ThreadsInv(b') by {
      forall u | 0 <= u < |b.threads|
        ensures ThreadInv(b', u)
      {
        assert ThreadInv(b, u);
      }
    }
    forall k | 0 <= k < |b'.reserved|
      ensures SlotInv(b', k)
    {
      SlotKept(b, t, b', k);
    }
  }

  /** A thread still mining leaves room for its next hit, because the block finds at most 64. */
  lemma RoomForHit(b: Block, hits: multiset<Hit>, t: nat)
    requires Counted(b, hits) && |hits| <= LOCAL_SLOTS
    requires t < |b.threads| && b.threads[t].todo != []
    ensures |b.reserved| < LOCAL_SLOTS
  {
    var hit := b.threads[t].todo[0];
    PendingHas(b.threads, t);
    assert hit in Pending(b.threads);
    assert multiset(b.reserved) + multiset{hit} <= hits;
    assert |multiset(b.reserved) + multiset{hit}| == |b.reserved| + 1;
    SubsetSize(multiset(b.reserved) + multiset{hit}, hits);
  }

  lemma FindCounted(b: Block, hits: multiset<Hit>, t: nat, b': Block)
    requires Counted(b, hits) && t < |b.threads| && b.threads[t].todo != []
    requires |b'.threads| == |b.threads|
    requires b'.threads == b.threads[t := Thread(b'.threads[t].pc, b.threads[t].todo[1..])]
    requires b'.reserved == b.reserved + [b.threads[t].todo[0]]
    ensures Counted(b', hits)
  {
    var th, th', hit := b.threads[t], b'.threads[t], b.threads[t].todo[0];
    PendingUpdate(b.threads, t, th');
    assert th.todo == [hit] + th'.todo;
    MoveAcross(multiset(b.reserved), Pending(b.threads), multiset{hit}, multiset(th'.todo));
  }

  lemma MoveAcross(a: multiset<Hit>, p: multiset<Hit>, x: multiset<Hit>, r: multiset<Hit>)
    requires x + r <= p
    ensures (a + x) + (p - (x + r) + r) == a + p
  {
  }

  /** b' is b after thread t has found a hit and reserved the next local slot. */
  ghost predicate Finds(b: Block, t: nat, b': Block) {
    && t < |b.threads| && |b.reserved| < LOCAL_SLOTS && b.threads[t].todo != []
    && b.threads[t].pc.Mine? && b'.sHits == b.sHits && b'.at == b.at
    && b'.sCount == |b.reserved| + 1
    && b'.reserved == b.reserved + [b.threads[t].todo[0]]
    && b'.threads == b.threads[t := Thread(Store(|b.reserved|, b.threads[t].todo[0]), b.threads[t].todo[1..])]
  }

  lemma FindThreads(b: Block, t: nat, b': Block)
    requires ThreadsInv(b) && Finds(b, t, b') && b.sCount == |b.reserved|
    ensures ThreadsInv(b')
  {
    forall u | 0 <= u < |b.threads|
      ensures ThreadInv(b', u)
    {
      assert ThreadInv(b, u);
    }
  }

  lemma FindSlots(b: Block, t: nat, b': Block)
    requires SlotsInv(b) && Finds(b, t, b') && Moves(b, t, b')
    ensures SlotsInv(b')
  {
    forall k | 0 <= k < |b'.reserved|
      ensures SlotInv(b', k)
    {
      if k < |b.reserved| {
        SlotKept(b, t, b', k);
      } else {
        assert b'.threads[t].pc == Store(k, b'.reserved[k]);
      }
    }
  }

  /** A hit reserves the next local slot. */
  lemma FindStep(b: Block, hits: multiset<Hit>, t: nat, writeIdx: nat, at: nat)
    requires BlockInv(b, hits) && |hits| <= LOCAL_SLOTS
    requires t < |b.threads| && b.threads[t].pc.Mine? && b.threads[t].todo != []
    ensures BlockInv(BlockStep(b, t, writeIdx, at), hits)
    ensures BlockStep(b, t, writeIdx, at).threads[t].pc.Store?
  {
    assert |b.sHits| == LOCAL_SLOTS && |b.reserved| <= LOCAL_SLOTS;
    hide Counted, ThreadsInv, SlotsInv;
    var b' := BlockStep(b, t, writeIdx, at);
    assert AllReached(b, 1) && !b.threads[0].pc.Enter?;
    RoomForHit(b, hits, t);
    assert Finds(b, t, b') && Moves(b, t, b') && CountInv(b');
    hide BlockStep;
    FindCounted(b, hits, t, b');
    BarriersKept(b, t, b');
    hide Barriers;
    FindThreads(b, t, b');
    FindSlots(b, t, b');
  }

  lemma SubsetSize(a: multiset<Hit>, c: multiset<Hit>)
    requires a <= c
    ensures |a| <= |c|
  {
    assert c == a + (c - a);
  }

  /** The write to a reserved local slot. */
  lemma StoreStep(b: Block, hits: multiset<Hit>, t: nat, writeIdx: nat, at: nat)
    requires BlockInv(b, hits)
    requires t < |b.threads| && b.threads[t].pc.Store?
    ensures BlockInv(BlockStep(b, t, writeIdx, at), hits)
  {
    var b' := BlockStep(b, t, writeIdx, at);
    var li := b.threads[t].pc.li;
    assert ThreadInv(b, t) && AllReached(b, 1);
    CountedKept(b, hits, t, b');
    hide Counted;
    BarriersKept(b, t, b');
    hide Barriers;
    assert ThreadsInv(b') by {
      forall u | 0 <= u < |b.threads|
        ensures ThreadInv(b', u)
      {
        assert ThreadInv(b, u);
      }
    }
    forall k | 0 <= k < |b'.reserved|
      ensures SlotInv(b', k)
    {
      if k != li {
        SlotKept(b, t, b', k);
      }
    }
  }

  /** Once every thread is at the second barrier, the local slots hold exactly the block's hits. */
  lemma Collected(b: Block, hits: multiset<Hit>)
    requires BlockInv(b, hits) && AllReached(b, 3)
    ensures b.sCount == |b.reserved| <= LOCAL_SLOTS && b.sHits[..b.sCount] == b.reserved
    ensures multiset(b.reserved) == hits
  {
    assert Rank(b.threads[0].pc) >= 3;
    forall k | 0 <= k < |b.reserved|
      ensures b.sHits[k] == b.reserved[k]
    {
      assert SlotInv(b, k);
    }
    forall t | 0 <= t < |b.threads|
      ensures b.threads[t].todo == []
    {
      assert ThreadInv(b, t);
    }
    PendingNone(b.threads);
    assert multiset(b.reserved) == multiset(b.reserved) + multiset{};
  }

  /** Every step keeps the block invariant. */
  lemma BlockStepInv(b: Block, hits: multiset<Hit>, t: nat, writeIdx: nat, at: nat)
    requires BlockInv(b, hits) && |hits| <= LOCAL_SLOTS
    requires t < |b.threads| && writeIdx == at % UINT32
    ensures BlockInv(BlockStep(b, t, writeIdx, at), hits)
  {
    var b' := BlockStep(b, t, writeIdx, at);
    var th := b.threads[t];
    assert ThreadInv(b, t);
    if b' == b {
    } else if th.pc.Mine? && th.todo != [] {
      FindStep(b, hits, t, writeIdx, at);
    } else if th.pc.Store? {
      StoreStep(b, hits, t, writeIdx, at);
    } else {
      if Rank(th.pc) >= 2 {
        assert AllReached(b, 1);
      }
      if th.pc.Flush? {
        assert AllReached(b, 3);
      }
      MoveThread(b, hits, t, b');
    }
  }

  // ---- The whole launch ----

  /** The block has reserved its range of the ring, or found that it needs none. */
  predicate Flushed(b: Block) {
    |b.threads| > 0 && (b.threads[0].pc.Flush? || b.threads[0].pc.Done?)
  }

  function FlushedHits(b: Block): multiset<Hit> {
    if Flushed(b) then multiset(b.reserved) else multiset{}
  }

  function AllFlushed(blocks: seq<Block>): multiset<Hit> {
    if |blocks| == 0 then multiset{} else FlushedHits(blocks[0]) + AllFlushed(blocks[1..])
  }

  /** Position p is reserved by the block and not written yet. */
  ghost predicate InFlight(b: Block, p: nat) {
    && |b.threads| > 0 && b.threads[0].pc.Flush?
    && b.at + b.threads[0].pc.i <= p < b.at + |b.reserved|
  }

  /** The block's reserved range of the log, from position `from` on, holds its hits. */
  ghost predicate RangeInv(b: Block, log: seq<Hit>, from: nat) {
    Flushed(b) && b.reserved != [] ==>
      from <= b.at && b.at + |b.reserved| <= |log| && log[b.at..b.at+|b.reserved|] == b.reserved
  }

  /** The ranges two blocks reserved do not overlap. */
  ghost predicate Disjoint(b: Block, c: Block) {
    Flushed(b) && Flushed(c) && b.reserved != [] && c.reserved != [] ==>
      b.at + |b.reserved| <= c.at || c.at + |c.reserved| <= b.at
  }

  ghost predicate Ranges(blocks: seq<Block>, log: seq<Hit>, from: nat) {
    && (forall k :: 0 <= k < |blocks| ==> RangeInv(blocks[k], log, from))
    && (forall j, k :: 0 <= j < k < |blocks| ==> Disjoint(blocks[j], blocks[k]))
  }

  ghost predicate BlocksInv(s: State, hits: seq<multiset<Hit>>) {
    && |s.blocks| == |hits|
    && forall k :: 0 <= k < |s.blocks| ==> BlockInv(s.blocks[k], hits[k]) && |hits[k]| <= LOCAL_SLOTS
  }

  ghost predicate LogInv(s: State, base: seq<Hit>) {
    && base <= s.log
    && s.writeIdx == |s.log| % UINT32
    && multiset(s.log[|base|..]) == AllFlushed(s.blocks)
    && Ranges(s.blocks, s.log, |base|)
  }

  ghost predicate Written(s: State, p: nat)
    requires |s.ring| > 0 && p < |s.log|
  {
    || s.ring[Slot(p, |s.ring|)] == s.log[p]
    || exists k :: 0 <= k < |s.blocks| && InFlight(s.blocks[k], p)
  }

  /** Every position not yet drained is in the ring or about to be written. */
  ghost predicate RingInv(s: State, drained: nat) {
    && |s.ring| > 0 && GoodCapacity(|s.ring|)
    && forall p :: drained <= p < |s.log| ==> Written(s, p)
  }

  /** The ring has room for the undrained hits and every hit of the launch. */
  ghost predicate Room(s: State, hits: seq<multiset<Hit>>, base: seq<Hit>, drained: nat) {
    drained <= |base| && |base| + |Total(hits)| <= drained + |s.ring|
  }

  ghost predicate Inv(s: State, hits: seq<multiset<Hit>>, base: seq<Hit>, drained: nat) {
    && BlocksInv(s, hits)
    && LogInv(s, base)
    && RingInv(s, drained)
    && Room(s, hits, base, drained)
  }

  lemma {:induction false} FlushedHas(blocks: seq<Block>, k: nat)
    requires k < |blocks|
    ensures FlushedHits(blocks[k]) <= AllFlushed(blocks)
  {
    hide FlushedHits;
    if k > 0 {
      FlushedHas(blocks[1..], k - 1);
    }
  }

  lemma {:induction false} FlushedUpdate(blocks: seq<Block>, k: nat, b: Block)
    requires k < |blocks|
    ensures FlushedHits(blocks[k]) <= AllFlushed(blocks)
    ensures AllFlushed(blocks[k := b]) == AllFlushed(blocks) - FlushedHits(blocks[k]) + FlushedHits(b)
  {
    hide FlushedHits;
    FlushedHas(blocks, k);
    if k == 0 {
      assert blocks[k := b][1..] == blocks[1..];
    } else {
      var rest := blocks[1..];
      assert blocks[k := b][1..] == rest[k-1 := b] && rest[k-1] == blocks[k];
      FlushedUpdate(rest, k - 1, b);
    }
  }

  lemma {:induction false} FlushedBound(blocks: seq<Block>, hits: seq<multiset<Hit>>)
    requires |blocks| == |hits|
    requires forall k :: 0 <= k < |blocks| ==> Counted(blocks[k], hits[k])
    ensures AllFlushed(blocks) <= Total(hits)
  {
    if |blocks| > 0 {
      FlushedBound(blocks[1..], hits[1..]);
      assert FlushedHits(blocks[0]) <= hits[0];
    }
  }

  lemma {:induction false} AllFinished(blocks: seq<Block>, hits: seq<multiset<Hit>>)
    requires |blocks| == |hits|
    requires forall k :: 0 <= k < |blocks| ==> BlockInv(blocks[k], hits[k]) && Finished(blocks[k])
    ensures AllFlushed(blocks) == Total(hits)
  {
    hide BlockInv;
    if |blocks| > 0 {
      AllFinished(blocks[1..], hits[1..]);
      assert BlockInv(blocks[0], hits[0]) && AllReached(blocks[0], 3);
      Collected(blocks[0], hits[0]);
      assert blocks[0].threads[0].pc.Done? by { BlockHasThreads(blocks[0], hits[0]); }
    }
  }

  lemma BlockHasThreads(b: Block, hits: multiset<Hit>)
    requires BlockInv(b, hits)
    ensures |b.threads| > 0 && |b.sHits| == LOCAL_SLOTS
  {
  }

  /** b' has no range, or the range of b. */
  ghost predicate SameRange(b: Block, b': Block) {
    Flushed(b') && b'.reserved != [] ==> Flushed(b) && b'.reserved == b.reserved && b'.at == b.at
  }

  lemma RangesKept(blocks: seq<Block>, log: seq<Hit>, from: nat, k: nat, b': Block)
    requires Ranges(blocks, log, from) && k < |blocks| && SameRange(blocks[k], b')
    ensures Ranges(blocks[k := b'], log, from)
  {
    hide Flushed;
    var blocks' := blocks[k := b'];
    forall j | 0 <= j < |blocks'|
      ensures RangeInv(blocks'[j], log, from)
    {
      assert RangeInv(blocks[j], log, from);
    }
    forall i, j | 0 <= i < j < |blocks'|
      ensures Disjoint(blocks'[i], blocks'[j])
    {
      assert Disjoint(blocks[i], blocks[j]);
    }
  }

  /** A range at the end of the log overlaps none before it. */
  lemma RangesExtended(blocks: seq<Block>, log: seq<Hit>, from: nat, k: nat, b': Block)
    requires Ranges(blocks, log, from) && k < |blocks| && from <= |log|
    requires Flushed(b') && b'.at == |log|
    ensures Ranges(blocks[k := b'], log + b'.reserved, from)
  {
    hide Flushed;
    var blocks', log' := blocks[k := b'], log + b'.reserved;
    forall j | 0 <= j < |blocks'|
      ensures RangeInv(blocks'[j], log', from)
    {
      assert RangeInv(blocks[j], log, from);
      var b := blocks[j];
      if j != k && Flushed(b) && b.reserved != [] {
        assert log'[b.at..b.at+|b.reserved|] == log[b.at..b.at+|b.reserved|];
      }
    }
    forall i, j | 0 <= i < j < |blocks'|
      ensures Disjoint(blocks'[i], blocks'[j])
    {
      assert Disjoint(blocks[i], blocks[j]);
      assert RangeInv(blocks[i], log, from) && RangeInv(blocks[j], log, from);
    }
  }

  /** A position already written stays so while block k changes, unless it was in flight there and no longer is. */
  lemma WrittenKept(s: State, s': State, k: nat, p: nat)
    requires |s.ring| > 0 && |s'.ring| == |s.ring| && p < |s.log| <= |s'.log| && Written(s, p)
    requires k < |s.blocks| == |s'.blocks| && s'.blocks == s.blocks[k := s'.blocks[k]]
    requires s'.log[p] == s.log[p] && s'.ring[Slot(p, |s.ring|)] == s.ring[Slot(p, |s.ring|)]
    requires InFlight(s.blocks[k], p) ==> InFlight(s'.blocks[k], p)
    ensures Written(s', p)
  {
    hide InFlight, Slot;
    if s.ring[Slot(p, |s.ring|)] != s.log[p] {
      var j :| 0 <= j < |s.blocks| && InFlight(s.blocks[j], p);
      assert InFlight(s'.blocks[j], p);
    }
  }

  /** Replacing one block by a step that reserves and writes nothing keeps the global invariants. */
  lemma QuietStep(s: State, base: seq<Hit>, drained: nat, k: nat, b': Block)
    requires LogInv(s, base) && RingInv(s, drained) && k < |s.blocks|
    requires FlushedHits(b') == FlushedHits(s.blocks[k]) && SameRange(s.blocks[k], b')
    requires forall p :: InFlight(s.blocks[k], p) ==> InFlight(b', p)
    ensures LogInv(s.(blocks := s.blocks[k := b']), base) && RingInv(s.(blocks := s.blocks[k := b']), drained)
  {
    hide Ranges, SameRange, FlushedHits, InFlight, Written;
    var s' := s.(blocks := s.blocks[k := b']);
    FlushedUpdate(s.blocks, k, b');
    assert AllFlushed(s'.blocks) == AllFlushed(s.blocks);
    RangesKept(s.blocks, s.log, |base|, k, b');
    forall p | drained <= p < |s'.log|
      ensures Written(s', p)
    {
      WrittenKept(s, s', k, p);
    }
  }

  /** The state after block k's atomicAdd: its hits are appended to the log. */
  function Reserved(s: State, k: nat, b': Block): State
    requires k < |s.blocks|
  {
    State(s.blocks[k := b'], s.ring, (s.writeIdx + |b'.reserved|) % UINT32, s.log + b'.reserved)
  }

  lemma FlushedAdded(blocks: seq<Block>, k: nat, b: Block)
    requires k < |blocks| && !Flushed(blocks[k]) && Flushed(b)
    ensures AllFlushed(blocks[k := b]) == AllFlushed(blocks) + multiset(b.reserved)
  {
    FlushedUpdate(blocks, k, b);
    hide AllFlushed;
  }

  lemma ReserveLog(s: State, base: seq<Hit>, k: nat, b': Block)
    requires LogInv(s, base) && k < |s.blocks|
    requires !Flushed(s.blocks[k]) && Flushed(b') && b'.at == |s.log|
    ensures LogInv(Reserved(s, k, b'), base)
  {
    hide Ranges, Flushed, AllFlushed;
    FlushedAdded(s.blocks, k, b');
    RangesExtended(s.blocks, s.log, |base|, k, b');
    LogExtended(s.log, |base|, b'.reserved);
    IndexAdvance(|s.log|, |b'.reserved|);
  }

  lemma ReserveRing(s: State, drained: nat, k: nat, b': Block)
    requires RingInv(s, drained) && k < |s.blocks|
    requires !Flushed(s.blocks[k]) && b'.at == |s.log|
    requires |b'.threads| > 0 && b'.threads[0].pc.Flush? && b'.threads[0].pc.i == 0
    ensures RingInv(Reserved(s, k, b'), drained)
  {
    var s' := Reserved(s, k, b');
    forall p | drained <= p < |s'.log|
      ensures Written(s', p)
    {
      if p < |s.log| {
        assert Written(s, p) && !InFlight(s.blocks[k], p);
        WrittenKept(s, s', k, p);
      } else {
        assert InFlight(b', p);
        InFlightWritten(s', k, p);
      }
    }
  }

  lemma LogExtended(log: seq<Hit>, from: nat, more: seq<Hit>)
    requires from <= |log|
    ensures multiset((log + more)[from..]) == multiset(log[from..]) + multiset(more)
  {
    assert (log + more)[from..] == log[from..] + more;
  }

  lemma InFlightWritten(s: State, k: nat, p: nat)
    requires |s.ring| > 0 && p < |s.log| && k < |s.blocks| && InFlight(s.blocks[k], p)
    ensures Written(s, p)
  {
  }

  /** The state after the write of the hit at position p0 by block k. */
  function WriteAt(s: State, k: nat, b': Block, p0: nat): State
    requires k < |s.blocks| && |s.ring| > 0 && p0 < |s.log|
  {
    s.(blocks := s.blocks[k := b'], ring := s.ring[Slot(p0, |s.ring|) := s.log[p0]])
  }

  lemma WriteLog(s: State, base: seq<Hit>, k: nat, b': Block, p0: nat)
    requires LogInv(s, base) && k < |s.blocks| && |s.ring| > 0 && p0 < |s.log|
    requires FlushedHits(b') == FlushedHits(s.blocks[k]) && SameRange(s.blocks[k], b')
    ensures LogInv(WriteAt(s, k, b', p0), base)
  {
    hide Ranges, SameRange, FlushedHits, InFlight, Slot, GoodCapacity;
    FlushedUpdate(s.blocks, k, b');
    assert AllFlushed(s.blocks[k := b']) == AllFlushed(s.blocks);
    RangesKept(s.blocks, s.log, |base|, k, b');
  }

  lemma WriteKeeps(s: State, drained: nat, k: nat, b': Block, p0: nat, p: nat)
    requires k < |s.blocks| && GoodCapacity(|s.ring|) && drained <= p < |s.log| <= drained + |s.ring|
    requires drained <= p0 < |s.log| && Written(s, p)
    requires InFlight(s.blocks[k], p) && p != p0 ==> InFlight(b', p)
    ensures Written(WriteAt(s, k, b', p0), p)
  {
    hide InFlight, Slot, GoodCapacity;
    var cap := |s.ring|;
    if p < p0 {
      SlotsDistinct(p, p0, cap);
    } else if p0 < p {
      SlotsDistinct(p0, p, cap);
    }
    if p != p0 {
      WrittenKept(s, WriteAt(s, k, b', p0), k, p);
    }
  }

  /** b' is b after the write of position p0: nothing else of its part of the log and the ring changes. */
  ghost predicate Writes(b: Block, b': Block, p0: nat) {
    && FlushedHits(b') == FlushedHits(b) && SameRange(b, b')
    && forall p :: InFlight(b, p) && p != p0 ==> InFlight(b', p)
  }

  /** The write of one hit fills its own slot and no other live one. */
  lemma WriteStep(s: State, base: seq<Hit>, drained: nat, k: nat, b': Block, p0: nat)
    requires LogInv(s, base) && RingInv(s, drained) && k < |s.blocks| && |s.ring| > 0
    requires drained <= |base| <= p0 < |s.log| <= drained + |s.ring|
    requires Writes(s.blocks[k], b', p0)
    ensures LogInv(WriteAt(s, k, b', p0), base) && RingInv(WriteAt(s, k, b', p0), drained)
  {
    hide LogInv, SameRange, FlushedHits, InFlight, Slot, GoodCapacity, Written;
    WriteLog(s, base, k, b', p0);
    forall p | drained <= p < |s.log|
      ensures Written(WriteAt(s, k, b', p0), p)
    {
      WriteKeeps(s, drained, k, b', p0, p);
    }
  }

  lemma LogFits(s: State, hits: seq<multiset<Hit>>, base: seq<Hit>, drained: nat)
    requires Inv(s, hits, base, drained)
    ensures |base| <= |s.log| <= drained + |s.ring|
  {
    assert forall k :: 0 <= k < |s.blocks| ==> Counted(s.blocks[k], hits[k]);
    FlushedBound(s.blocks, hits);
    SubsetSize(AllFlushed(s.blocks), Total(hits));
    assert |multiset(s.log[|base|..])| == |s.log| - |base|;
  }

  lemma Flushing(b: Block, hits: multiset<Hit>)
    requires BlockInv(b, hits) && b.threads[0].pc.Flush?
    ensures b.sCount == |b.reserved| <= LOCAL_SLOTS == |b.sHits| && b.sHits[..b.sCount] == b.reserved
    ensures b.threads[0].pc.start == b.at % UINT32 && Flushed(b)
  {
    assert Rank(b.threads[0].pc) >= 4 && AllReached(b, 3) && ThreadInv(b, 0);
    Collected(b, hits);
  }

  /** The ring write of a flushing block is the write its range calls for. */
  lemma FlushTarget(s: State, base: seq<Hit>, hits: multiset<Hit>, k: nat)
    requires LogInv(s, base) && |s.ring| > 0 && k < |s.blocks| && BlockInv(s.blocks[k], hits)
    requires s.blocks[k].threads[0].pc.Flush? && s.blocks[k].threads[0].pc.i < s.blocks[k].sCount
    ensures
      var b := s.blocks[k];
      var pc := b.threads[0].pc;
      var p := b.at + pc.i;
      && |base| <= p < |s.log| && pc.i < LOCAL_SLOTS && b.sCount == |b.reserved| <= LOCAL_SLOTS
      && (pc.start + pc.i) % UINT32 % |s.ring| == Slot(p, |s.ring|) && b.sHits[pc.i] == s.log[p]
  {
    hide BlockInv, Flushed;
    var b := s.blocks[k];
    BlockHasThreads(b, hits);
    var pc := b.threads[0].pc;
    Flushing(b, hits);
    assert RangeInv(b, s.log, |base|);
    hide LogInv, Ranges, GoodCapacity;
    IndexAdvance(b.at, pc.i);
    assert s.log[b.at..b.at+|b.reserved|][pc.i] == s.log[b.at + pc.i];
    assert b.sHits[..b.sCount][pc.i] == b.sHits[pc.i];
  }

  /** The block's first thread, range and hits are what decides its part of the global invariants. */
  ghost predicate SamePart(b: Block, b': Block) {
    && FlushedHits(b') == FlushedHits(b) && SameRange(b, b')
    && forall p :: InFlight(b, p) ==> InFlight(b', p)
  }

  lemma SamePartAs(b: Block, b': Block)
    requires |b.threads| > 0 && |b'.threads| > 0 && b'.threads[0].pc == b.threads[0].pc
    requires Flushed(b) ==> b'.reserved == b.reserved && b'.at == b.at
    ensures SamePart(b, b')
  {
  }

  /** A step of any thread but the first, or of the first before the flush. */
  lemma EarlyEffect(b: Block, t: nat, writeIdx: nat, at: nat)
    requires Barriers(b) && 0 < |b.threads| && t < |b.threads| && |b.sHits| == LOCAL_SLOTS && ThreadInv(b, t)
    requires t == 0 ==> Rank(b.threads[0].pc) < 3
    ensures SamePart(b, BlockStep(b, t, writeIdx, at))
  {
    var b' := BlockStep(b, t, writeIdx, at);
    if Flushed(b) {
      assert Rank(b.threads[0].pc) >= 4;
      assert AllReached(b, 3);
      assert Rank(b.threads[t].pc) >= 3;
      SamePartAs(b, b');
    } else {
      assert t != 0 ==> b'.threads[0] == b.threads[0];
      assert !Flushed(b');
    }
  }

  /** The last steps of thread 0, when it has nothing to reserve or nothing left to write. */
  lemma LateEffect(b: Block, hits: multiset<Hit>, writeIdx: nat, at: nat)
    requires BlockInv(b, hits) && |b.sHits| == LOCAL_SLOTS && Rank(b.threads[0].pc) >= 3 && !Reserves(b, 0)
    requires !(b.threads[0].pc.Flush? && b.threads[0].pc.i < b.sCount)
    ensures SamePart(b, BlockStep(b, 0, writeIdx, at))
  {
    var b' := BlockStep(b, 0, writeIdx, at);
    if b' != b {
      assert AllReached(b, 3);
      Collected(b, hits);
      assert b'.threads[0].pc.Done? && b'.reserved == b.reserved && b'.at == b.at;
      hide BlockInv;
      assert forall p :: !InFlight(b, p);
    }
  }

  lemma QuietEffect(b: Block, hits: multiset<Hit>, t: nat, writeIdx: nat, at: nat)
    requires BlockInv(b, hits) && t < |b.threads| && |b.sHits| == LOCAL_SLOTS && !Reserves(b, t)
    requires !(b.threads[t].pc.Flush? && b.threads[t].pc.i < b.sCount)
    ensures SamePart(b, BlockStep(b, t, writeIdx, at))
  {
    assert ThreadInv(b, t) && Barriers(b);
    hide SamePart;
    if t == 0 && Rank(b.threads[0].pc) >= 3 {
      LateEffect(b, hits, writeIdx, at);
    } else {
      EarlyEffect(b, t, writeIdx, at);
    }
  }

  lemma QuietGlobal(s: State, hits: multiset<Hit>, base: seq<Hit>, drained: nat, k: nat, t: nat)
    requires LogInv(s, base) && RingInv(s, drained) && k < |s.blocks| && BlockInv(s.blocks[k], hits)
    requires t < |s.blocks[k].threads| && |s.blocks[k].sHits| == LOCAL_SLOTS && !Reserves(s.blocks[k], t)
    requires !(s.blocks[k].threads[t].pc.Flush? && s.blocks[k].threads[t].pc.i < s.blocks[k].sCount)
    ensures LogInv(Step(s, k, t), base) && RingInv(Step(s, k, t), drained)
  {
    var b := s.blocks[k];
    var b' := BlockStep(b, t, s.writeIdx, |s.log|);
    assert Step(s, k, t) == s.(blocks := s.blocks[k := b']) by {
      assert ThreadInv(b, t);
    }
    QuietEffect(b, hits, t, s.writeIdx, |s.log|);
    hide LogInv, RingInv, BlockInv, BlockStep, Step, FlushedHits, SameRange, InFlight;
    QuietStep(s, base, drained, k, b');
  }

  lemma ReserveGlobal(s: State, hits: multiset<Hit>, base: seq<Hit>, drained: nat, k: nat, t: nat)
    requires LogInv(s, base) && RingInv(s, drained) && k < |s.blocks| && BlockInv(s.blocks[k], hits)
    requires t < |s.blocks[k].threads| && |s.blocks[k].sHits| == LOCAL_SLOTS && Reserves(s.blocks[k], t)
    ensures LogInv(Step(s, k, t), base) && RingInv(Step(s, k, t), drained)
  {
    var b := s.blocks[k];
    var b' := BlockStep(b, t, s.writeIdx, |s.log|);
    assert ThreadInv(b, t);
    Collected(b, hits);
    assert Buffered(b) == b.reserved;
    assert Step(s, k, t) == Reserved(s, k, b');
    assert b'.threads[0].pc.Flush? && b'.threads[0].pc.i == 0 && b'.at == |s.log| && !Flushed(b);
    hide LogInv, RingInv, BlockInv, BlockStep, Step, Reserved;
    ReserveLog(s, base, k, b');
    ReserveRing(s, drained, k, b');
  }

  /** A flush step of thread 0 ends one position's flight and changes nothing else of the block's part. */
  lemma WriteBlock(b: Block, hits: multiset<Hit>, t: nat, writeIdx: nat, at: nat)
    requires BlockInv(b, hits) && t < |b.threads| && |b.sHits| == LOCAL_SLOTS
    requires b.threads[t].pc.Flush? && b.threads[t].pc.i < b.sCount <= LOCAL_SLOTS
    ensures t == 0
    ensures Writes(b, BlockStep(b, t, writeIdx, at), b.at + b.threads[0].pc.i)
  {
    assert ThreadInv(b, t);
    hide SlotsInv, Barriers, Counted;
  }

  lemma WriteGlobal(s: State, hits: multiset<Hit>, base: seq<Hit>, drained: nat, k: nat, t: nat)
    requires LogInv(s, base) && RingInv(s, drained) && k < |s.blocks| && BlockInv(s.blocks[k], hits)
    requires drained <= |base| && |s.log| <= drained + |s.ring|
    requires t < |s.blocks[k].threads| && |s.blocks[k].sHits| == LOCAL_SLOTS
    requires s.blocks[k].threads[t].pc.Flush? && s.blocks[k].threads[t].pc.i < s.blocks[k].sCount
    ensures LogInv(Step(s, k, t), base) && RingInv(Step(s, k, t), drained)
  {
    var b := s.blocks[k];
    var b' := BlockStep(b, t, s.writeIdx, |s.log|);
    assert |s.ring| > 0;
    hide *;
    WriteBlock(b, hits, t, s.writeIdx, |s.log|);
    StepWrites(s, hits, base, k);
    FlushTarget(s, base, hits, k);
    WriteStep(s, base, drained, k, b', b.at + b.threads[0].pc.i);
  }

  /** A flush step is the ring write of the position it has come to. */
  lemma StepWrites(s: State, hits: multiset<Hit>, base: seq<Hit>, k: nat)
    requires LogInv(s, base) && |s.ring| > 0 && k < |s.blocks| && BlockInv(s.blocks[k], hits)
    requires 0 < |s.blocks[k].threads| && |s.blocks[k].sHits| == LOCAL_SLOTS
    requires s.blocks[k].threads[0].pc.Flush? && s.blocks[k].threads[0].pc.i < s.blocks[k].sCount
    ensures
      var b := s.blocks[k];
      var p0 := b.at + b.threads[0].pc.i;
      && p0 < |s.log| && Step(s, k, 0) == WriteAt(s, k, BlockStep(b, 0, s.writeIdx, |s.log|), p0)
  {
    hide LogInv, BlockInv, BlockStep, Slot;
    FlushTarget(s, base, hits, k);
  }

  lemma StepInv(s: State, hits: seq<multiset<Hit>>, base: seq<Hit>, drained: nat, k: nat, t: nat)
    requires Inv(s, hits, base, drained)
    requires k < |s.blocks| && t < |s.blocks[k].threads| && |s.blocks[k].sHits| == LOCAL_SLOTS
    ensures Inv(Step(s, k, t), hits, base, drained)
  {
    LogFits(s, hits, base, drained);
    StepBlocks(s, hits, k, t);
    StepKeepsRing(s, k, t);
    hide LogInv, RingInv, Step;
    var b := s.blocks[k];
    assert BlockInv(b, hits[k]);
    hide BlocksInv, BlockInv;
    if Reserves(b, t) {
      ReserveGlobal(s, hits[k], base, drained, k, t);
    } else if b.threads[t].pc.Flush? && b.threads[t].pc.i < b.sCount {
      WriteGlobal(s, hits[k], base, drained, k, t);
    } else {
      QuietGlobal(s, hits[k], base, drained, k, t);
    }
  }

  lemma StepBlocks(s: State, hits: seq<multiset<Hit>>, k: nat, t: nat)
    requires BlocksInv(s, hits) && s.writeIdx == |s.log| % UINT32
    requires k < |s.blocks| && t < |s.blocks[k].threads| && |s.blocks[k].sHits| == LOCAL_SLOTS && |s.ring| > 0
    ensures BlocksInv(Step(s, k, t), hits)
  {
    assert Step(s, k, t).blocks == s.blocks[k := BlockStep(s.blocks[k], t, s.writeIdx, |s.log|)];
    hide BlockInv, BlockStep;
    BlockStepInv(s.blocks[k], hits[k], t, s.writeIdx, |s.log|);
  }

  lemma {:induction false} RunInv(s: State, schedule: seq<(nat, nat)>, hits: seq<multiset<Hit>>, base: seq<Hit>,
                                  drained: nat)
    requires |s.ring| > 0 && Inv(s, hits, base, drained)
    ensures |Run(s, schedule).ring| == |s.ring| && Inv(Run(s, schedule), hits, base, drained)
    decreases |schedule|
  {
    hide Inv, Step;
    if |schedule| > 0 {
      var (k, t) := schedule[0];
      if k < |s.blocks| && t < |s.blocks[k].threads| && |s.blocks[k].sHits| == LOCAL_SLOTS {
        StepInv(s, hits, base, drained, k, t);
        StepKeepsRing(s, k, t);
        RunInv(Step(s, k, t), schedule[1..], hits, base, drained);
      } else {
        RunInv(s, schedule[1..], hits, base, drained);
      }
    }
  }

  lemma StepKeepsRing(s: State, k: nat, t: nat)
    requires k < |s.blocks| && t < |s.blocks[k].threads|
    requires |s.blocks[k].sHits| == LOCAL_SLOTS && |s.ring| > 0
    ensures |Step(s, k, t).ring| == |s.ring|
  {
  }

  // ---- Main results ----

  /** The hits each block of a launch will find. */
  function LaunchHits(blocks: seq<Block>): (hits: seq<multiset<Hit>>)
    ensures |hits| == |blocks|
  {
    seq(|blocks|, k requires 0 <= k < |blocks| => Pending(blocks[k].threads))
  }

  /**
   * A launch over a quiescent ring: the positions from `drained` on hold the undrained hits, no block finds more than
   * 64 hits, and the ring, whose capacity divides 2^32, has room for all of them.
   */
  ghost predicate Launched(s: State, drained: nat) {
    && |s.ring| > 0 && GoodCapacity(|s.ring|)
    && s.writeIdx == |s.log| % UINT32
    && drained <= |s.log|
    && (forall p :: drained <= p < |s.log| ==> s.ring[Slot(p, |s.ring|)] == s.log[p])
    && (forall k :: 0 <= k < |s.blocks| ==> Fresh(s.blocks[k]) && |Pending(s.blocks[k].threads)| <= LOCAL_SLOTS)
    && |s.log| + |Total(LaunchHits(s.blocks))| <= drained + |s.ring|
  }

  lemma {:induction false} NoneFlushed(blocks: seq<Block>)
    requires forall k :: 0 <= k < |blocks| ==> Fresh(blocks[k])
    ensures AllFlushed(blocks) == multiset{}
  {
    if |blocks| > 0 {
      NoneFlushed(blocks[1..]);
      assert Fresh(blocks[0]);
    }
  }

  lemma LaunchedInv(s: State, drained: nat)
    requires Launched(s, drained)
    ensures Inv(s, LaunchHits(s.blocks), s.log, drained)
  {
    NoneFlushed(s.blocks);
    assert s.log[|s.log|..] == [];
    forall k | 0 <= k < |s.blocks|
      ensures BlockInv(s.blocks[k], LaunchHits(s.blocks)[k])
    {
      FreshInv(s.blocks[k]);
    }
  }

  lemma AfterRun(s: State, schedule: seq<(nat, nat)>, drained: nat)
    requires Launched(s, drained)
    ensures |Run(s, schedule).ring| == |s.ring| && Inv(Run(s, schedule), LaunchHits(s.blocks), s.log, drained)
  {
    LaunchedInv(s, drained);
    assert |s.ring| > 0;
    hide Inv, Run, Launched, LaunchHits;
    RunInv(s, schedule, LaunchHits(s.blocks), s.log, drained);
  }

  lemma RangesApart(blocks: seq<Block>, log: seq<Hit>, from: nat, j: nat, k: nat, i: nat, i': nat)
    requires Ranges(blocks, log, from)
    requires j < |blocks| && k < |blocks| && j != k && Flushed(blocks[j]) && Flushed(blocks[k])
    requires i < |blocks[j].reserved| && i' < |blocks[k].reserved|
    ensures from <= blocks[j].at + i < |log| && from <= blocks[k].at + i' < |log|
    ensures blocks[j].at + i != blocks[k].at + i'
  {
    hide Flushed;
    assert RangeInv(blocks[j], log, from) && RangeInv(blocks[k], log, from);
    assert if j < k then Disjoint(blocks[j], blocks[k]) else Disjoint(blocks[k], blocks[j]);
  }

  lemma LaunchedRing(s: State, drained: nat)
    requires Launched(s, drained)
    ensures |s.ring| > 0
  {
  }

  lemma InvFacts(s: State, hits: seq<multiset<Hit>>, base: seq<Hit>, drained: nat)
    requires Inv(s, hits, base, drained)
    ensures |s.ring| > 0 && GoodCapacity(|s.ring|) && Ranges(s.blocks, s.log, |base|)
    ensures base <= s.log && drained <= |base| && |s.log| <= drained + |s.ring|
    ensures s.writeIdx == |s.log| % UINT32 && multiset(s.log[|base|..]) == AllFlushed(s.blocks)
  {
    LogFits(s, hits, base, drained);
  }

  lemma SlotsApart(r: State, hits: seq<multiset<Hit>>, base: seq<Hit>, drained: nat, j: nat, k: nat, i: nat, i': nat)
    requires Inv(r, hits, base, drained)
    requires j < |r.blocks| && k < |r.blocks| && j != k && Flushed(r.blocks[j]) && Flushed(r.blocks[k])
    requires i < |r.blocks[j].reserved| && i' < |r.blocks[k].reserved|
    ensures Slot(r.blocks[j].at + i, |r.ring|) != Slot(r.blocks[k].at + i', |r.ring|)
  {
    hide Inv, Ranges, Slot, Flushed, GoodCapacity;
    InvFacts(r, hits, base, drained);
    RangesApart(r.blocks, r.log, |base|, j, k, i, i');
    var p, q := r.blocks[j].at + i, r.blocks[k].at + i';
    if p < q {
      SlotsDistinct(p, q, |r.ring|);
    } else {
      SlotsDistinct(q, p, |r.ring|);
    }
  }

  /** At no point of any schedule do two blocks hold the same slot of the ring. */
  lemma ReservedSlotsDisjoint(s: State, schedule: seq<(nat, nat)>, drained: nat, j: nat, k: nat, i: nat, i': nat)
    requires Launched(s, drained)
    requires var r := Run(s, schedule);
             j < |r.blocks| && k < |r.blocks| && j != k && Flushed(r.blocks[j]) && Flushed(r.blocks[k]) &&
             i < |r.blocks[j].reserved| && i' < |r.blocks[k].reserved|
    ensures var r := Run(s, schedule);
            Slot(r.blocks[j].at + i, |s.ring|) != Slot(r.blocks[k].at + i', |s.ring|)
  {
    hide Launched, Inv, Run, Slot, Flushed, LaunchHits, GoodCapacity;
    LaunchedRing(s, drained);
    AfterRun(s, schedule, drained);
    SlotsApart(Run(s, schedule), LaunchHits(s.blocks), s.log, drained, j, k, i, i');
  }

  /**
   * When a launch is over, whatever the schedule was: the index has advanced by the number of hits, the undrained hits
   * are untouched, and the slots after them hold exactly the hits that the threads found.
   */
  lemma LaunchDelivers(s: State, schedule: seq<(nat, nat)>, drained: nat)
    requires Launched(s, drained)
    requires forall k :: 0 <= k < |Run(s, schedule).blocks| ==> Finished(Run(s, schedule).blocks[k])
    ensures
      var r, hits := Run(s, schedule), Total(LaunchHits(s.blocks));
      && |r.ring| == |s.ring| && s.log <= r.log
      && |r.log| == |s.log| + |hits| && r.writeIdx == |r.log| % UINT32
      && Window(r.ring, drained, |r.log| - drained) == r.log[drained..]
      && Window(r.ring, drained, |s.log| - drained) == Window(s.ring, drained, |s.log| - drained)
      && multiset(Window(r.ring, |s.log|, |hits|)) == hits
  {
    hide Launched, Inv, Run, Slot, LaunchHits, Finished, Total, Window, GoodCapacity;
    WindowIsLog(s, drained);
    AfterRun(s, schedule, drained);
    FinishedRing(Run(s, schedule), LaunchHits(s.blocks), s.log, drained);
  }

  /** The log of a finished launch grew by exactly the hits found. */
  lemma LogDelivers(s: State, schedule: seq<(nat, nat)>, drained: nat)
    requires Launched(s, drained)
    requires forall k :: 0 <= k < |Run(s, schedule).blocks| ==> Finished(Run(s, schedule).blocks[k])
    ensures multiset(Run(s, schedule).log) == multiset(s.log) + Total(LaunchHits(s.blocks))
  {
    hide Launched, Inv, Run, LaunchHits, Finished, Total;
    LaunchedRing(s, drained);
    AfterRun(s, schedule, drained);
    var r := Run(s, schedule);
    FinishedCount(r, LaunchHits(s.blocks), s.log, drained);
    InvFacts(r, LaunchHits(s.blocks), s.log, drained);
    assert r.log == s.log + r.log[|s.log|..];
  }

  lemma WindowIsLog(s: State, drained: nat)
    requires Launched(s, drained)
    ensures |s.ring| > 0 && drained <= |s.log|
    ensures Window(s.ring, drained, |s.log| - drained) == s.log[drained..]
  {
    hide Slot, GoodCapacity;
  }

  lemma FinishedRing(r: State, hits: seq<multiset<Hit>>, base: seq<Hit>, drained: nat)
    requires Inv(r, hits, base, drained)
    requires forall k :: 0 <= k < |r.blocks| ==> Finished(r.blocks[k])
    ensures base <= r.log && |r.log| == |base| + |Total(hits)|
    ensures r.writeIdx == |r.log| % UINT32
    ensures Window(r.ring, drained, |r.log| - drained) == r.log[drained..]
    ensures Window(r.ring, drained, |base| - drained) == base[drained..]
    ensures multiset(Window(r.ring, |base|, |Total(hits)|)) == Total(hits)
  {
    hide Inv, Slot, Finished, Ranges, AllFlushed, Total, GoodCapacity, Window;
    FinishedWindow(r, hits, base, drained);
    FinishedCount(r, hits, base, drained);
    InvFacts(r, hits, base, drained);
    assert |multiset(r.log[|base|..])| == |r.log| - |base|;
    WindowParts(r.ring, drained, |base| - drained, |r.log| - drained);
    assert r.log[drained..][..|base|-drained] == base[drained..];
    assert r.log[drained..][|base|-drained..] == r.log[|base|..];
  }

  lemma FinishedCount(r: State, hits: seq<multiset<Hit>>, base: seq<Hit>, drained: nat)
    requires Inv(r, hits, base, drained)
    requires forall k :: 0 <= k < |r.blocks| ==> Finished(r.blocks[k])
    ensures AllFlushed(r.blocks) == Total(hits)
  {
    hide LogInv, RingInv, BlockInv, Finished;
    AllFinished(r.blocks, hits);
  }

  lemma FinishedWindow(r: State, hits: seq<multiset<Hit>>, base: seq<Hit>, drained: nat)
    requires Inv(r, hits, base, drained)
    requires forall k :: 0 <= k < |r.blocks| ==> Finished(r.blocks[k])
    ensures |r.ring| > 0 && |base| <= |r.log|
    ensures Window(r.ring, drained, |r.log| - drained) == r.log[drained..]
  {
    hide Slot;
    forall p | drained <= p < |r.log|
      ensures r.ring[Slot(p, |r.ring|)] == r.log[p]
    {
      assert Written(r, p);
    }
  }
}
