/**
 * The hit commit protocol of kernel_mine_batch and kernel_mine_batch_unroll in src/cuda/engine.cu, as a state machine:
 * each atomic operation, shared or global write and barrier crossing of one thread is one step, and a schedule is any
 * sequence of (block, thread) choices.
 */
module HitProtocol {
  import opened Words
  import opened HitRing

  const LOCAL_SLOTS := 64

  /** Where a thread stands. The hits it will still find, in order, are its `todo`. */
  datatype Pc =
    | Enter                              // before the first barrier; thread 0 clears s_count here
    | Wait1                              // at the first barrier
    | Mine                               // in the nonce loop
    | Store(li: nat, hit: Hit)           // holds local slot li and has not written it yet
    | Spill(hit: Hit)                    // the local buffer was full
    | SpillWrite(idx: nat, hit: Hit)     // holds global index idx and has not written it yet
    | Wait2                              // at the second barrier
    | Flush(start: nat, i: nat)          // thread 0, copying the local hits to the ring
    | Done

  datatype Thread = Thread(pc: Pc, todo: seq<Hit>)

  /**
   * The shared memory of a block. `reserved` and `at` are history: the hits in the order their local slots were
   * reserved, and the position in the global log where the block's range starts. s_count is a 32-bit counter.
   */
  datatype Block = Block(threads: seq<Thread>, sCount: word, sHits: seq<Hit>, reserved: seq<Hit>, at: nat)

  /** `log` is history: every hit in the order its global index was reserved. */
  datatype State = State(blocks: seq<Block>, ring: seq<Hit>, writeIdx: nat, log: seq<Hit>)

  function Rank(pc: Pc): nat {
    match pc
    case Enter => 0
    case Wait1 => 1
    case Mine => 2
    case Store(_, _) => 2
    case Spill(_) => 2
    case SpillWrite(_, _) => 2
    case Wait2 => 3
    case Flush(_, _) => 4
    case Done => 4
  }

  /** Every thread of the block has reached rank r: the condition for passing a barrier. */
  predicate AllReached(b: Block, r: nat) {
    forall u :: 0 <= u < |b.threads| ==> Rank(b.threads[u].pc) >= r
  }

  function WithThread(b: Block, t: nat, th: Thread): Block
    requires t < |b.threads|
  {
    b.(threads := b.threads[t := th])
  }

  /** The block after one step of thread t; writeIdx and at are the global index and log length before the step. */
  function BlockStep(b: Block, t: nat, writeIdx: nat, at: nat): Block
    requires t < |b.threads| && |b.sHits| == LOCAL_SLOTS
  {
    var th := b.threads[t];
    match th.pc
    case Enter =>
      var b' := WithThread(b, t, th.(pc := Wait1));
      if t == 0 then b'.(sCount := 0) else b'
    case Wait1 =>
      if AllReached(b, 1) then WithThread(b, t, th.(pc := Mine)) else b
    case Mine =>
      if th.todo == [] then WithThread(b, t, th.(pc := Wait2))
      else
        var hit, li := th.todo[0], b.sCount;
        var pc := if li < LOCAL_SLOTS then Store(li, hit) else Spill(hit);
        WithThread(b, t, Thread(pc, th.todo[1..])).(sCount := (li + 1) % UINT32, reserved := b.reserved + [hit])
    case Store(li, hit) =>
      if li < LOCAL_SLOTS then WithThread(b, t, th.(pc := Mine)).(sHits := b.sHits[li := hit]) else b
    case Spill(hit) =>
      WithThread(b, t, th.(pc := SpillWrite(writeIdx, hit)))
    case SpillWrite(_, _) =>
      WithThread(b, t, th.(pc := Mine))
    case Wait2 =>
      if !AllReached(b, 3) then b
      else if t == 0 && b.sCount > 0 then WithThread(b, t, th.(pc := Flush(writeIdx, 0))).(at := at)
      else WithThread(b, t, th.(pc := Done))
    case Flush(start, i) =>
      if i >= b.sCount then WithThread(b, t, th.(pc := Done))
      else if i < LOCAL_SLOTS then WithThread(b, t, th.(pc := Flush(start, i + 1)))
      else b
    case Done => b
  }

  /** Thread t of block b reserves a global range in this step: one atomicAdd by a flushing block, or one atomicInc. */
  predicate Reserves(b: Block, t: nat)
    requires t < |b.threads|
  {
    var th := b.threads[t];
    th.pc.Spill? || (th.pc.Wait2? && AllReached(b, 3) && t == 0 && b.sCount > 0)
  }

  /** The hits a flushing block reserves positions for: as many as s_count says, the last ones it found. */
  function Buffered(b: Block): seq<Hit> {
    if b.sCount <= |b.reserved| then b.reserved[|b.reserved| - b.sCount..] else b.reserved
  }

  /** One step of thread t of block k. */
  function Step(s: State, k: nat, t: nat): State
    requires k < |s.blocks| && t < |s.blocks[k].threads|
    requires |s.blocks[k].sHits| == LOCAL_SLOTS && |s.ring| > 0
  {
    var b, cap := s.blocks[k], |s.ring|;
    var th := b.threads[t];
    var blocks := s.blocks[k := BlockStep(b, t, s.writeIdx, |s.log|)];
    match th.pc
    case Spill(hit) =>
      State(blocks, s.ring, (s.writeIdx + 1) % UINT32, s.log + [hit])
    case SpillWrite(idx, hit) =>
      State(blocks, s.ring[idx % cap := hit], s.writeIdx, s.log)
    case Wait2 =>
      if Reserves(b, t) then State(blocks, s.ring, (s.writeIdx + b.sCount) % UINT32, s.log + Buffered(b))
      else s.(blocks := blocks)
    case Flush(start, i) =>
      if i < b.sCount && i < LOCAL_SLOTS then
        s.(blocks := blocks, ring := s.ring[(start + i) % UINT32 % cap := b.sHits[i]])
      else s.(blocks := blocks)
    case _ =>
      s.(blocks := blocks)
  }

  /** A choice that names no thread is skipped. */
  function Run(s: State, schedule: seq<(nat, nat)>): State
    requires |s.ring| > 0
    decreases |schedule|
  {
    if |schedule| == 0 then s
    else
      var (k, t) := schedule[0];
      if k < |s.blocks| && t < |s.blocks[k].threads| && |s.blocks[k].sHits| == LOCAL_SLOTS
      then Run(Step(s, k, t), schedule[1..])
      else Run(s, schedule[1..])
  }

  /** The hits the threads of a block have yet to find. */
  function Pending(threads: seq<Thread>): multiset<Hit> {
    if |threads| == 0 then multiset{} else multiset(threads[0].todo) + Pending(threads[1..])
  }

  /** All the hits of a launch, block by block. */
  function Total(hits: seq<multiset<Hit>>): multiset<Hit> {
    if |hits| == 0 then multiset{} else hits[0] + Total(hits[1..])
  }

  /** A freshly launched block: s_count and the local slots hold whatever was there before. */
  predicate Fresh(b: Block) {
    && |b.threads| > 0 && |b.sHits| == LOCAL_SLOTS && b.reserved == []
    && forall t :: 0 <= t < |b.threads| ==> b.threads[t].pc.Enter?
  }

  predicate Finished(b: Block) {
    forall t :: 0 <= t < |b.threads| ==> b.threads[t].pc.Done?
  }
}
