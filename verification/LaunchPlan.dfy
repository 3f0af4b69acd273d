/** The launch plan of src/cuda/launch_plan.h and the nonces its lanes test in src/cuda/engine.cu. */
module LaunchPlan {
  import opened Words
  import opened Arithmetic

  const MAX_BLOCKS := 0xFFFF_FFFF

  datatype Plan = Plan(blocksPerJob: nat, threadsPerBlock: nat, numJobs: nat)

  /** The block sizes the planner allows. */
  predicate BlockSize(tpb: nat) {
    64 <= tpb <= 1024
  }

  /** The allowed size nearest to the request: it lies between the request and every allowed size. */
  function ClampThreadsPerBlock(requested: nat): (clamped: nat)
    ensures BlockSize(clamped)
    ensures forall tpb: nat :: BlockSize(tpb) ==> requested <= clamped <= tpb || tpb <= clamped <= requested
  {
    if requested < 64 then 64 else if requested > 1024 then 1024 else requested
  }

  /** computeLaunchPlan: the sum that rounds up is a 64-bit sum and can wrap. */
  method ComputeLaunchPlan(numJobs: word, desired: word64) returns (plan: Plan)
    ensures plan.numJobs == numJobs
    ensures numJobs == 0 || desired == 0 ==> plan.blocksPerJob == 0 && plan.threadsPerBlock == 0
    ensures numJobs > 0 && desired > 0 ==>
      var tpb := plan.threadsPerBlock;
      && tpb in {64, 128, 256} && (tpb <= desired || tpb == 64) && (tpb == 256 || desired < 2 * tpb)
      && 1 <= plan.blocksPerJob <= MAX_BLOCKS
      // The lanes are as many as demanded exactly when the demand can be met at all, and then no block is spare.
      && (plan.blocksPerJob * tpb >= desired <==> desired <= MAX_BLOCKS * tpb)
      && (desired <= MAX_BLOCKS * tpb ==> (plan.blocksPerJob - 1) * tpb < desired)
  {
    if numJobs == 0 || desired == 0 {
      return Plan(0, 0, numJobs);
    }
    var tpb := 256;
    while tpb > desired && tpb >= 64
      invariant tpb in {32, 64, 128, 256}
      invariant tpb == 256 || desired < 2 * tpb
      decreases tpb
    {
      tpb := tpb / 2;
    }
    tpb := ClampThreadsPerBlock(tpb);
    var blocks := (desired + tpb - 1) % UINT64 / tpb;
    if blocks == 0 {
      blocks := 1;
    }
    if blocks > MAX_BLOCKS {
      blocks := MAX_BLOCKS;
    }
    BlocksAre(desired, tpb);
    plan := Plan(blocks, tpb, numJobs);
  }

  lemma BlocksAre(desired: word64, tpb: nat)
    requires desired > 0 && tpb in {64, 128, 256}
    ensures
      var rounded := (desired + tpb - 1) % UINT64 / tpb;
      var blocks := if rounded == 0 then 1 else if rounded > MAX_BLOCKS then MAX_BLOCKS else rounded;
      && (blocks * tpb >= desired <==> desired <= MAX_BLOCKS * tpb)
      && (desired <= MAX_BLOCKS * tpb ==> (blocks - 1) * tpb < desired)
  {
    var x := desired + tpb - 1;
    if x < UINT64 {
      ModUnique(x, UINT64, 0, x);
      BlocksFit(desired, tpb);
    } else {
      ModUnique(x, UINT64, 1, x - UINT64);
      ModUnique(x - UINT64, tpb, 0, x - UINT64);
    }
  }

  /** When the rounding sum does not wrap: blocks for all of the demand, or as many as there can be. */
  lemma BlocksFit(desired: nat, tpb: nat)
    requires desired > 0 && tpb > 0
    ensures
      var rounded := (desired + tpb - 1) / tpb;
      && rounded > 0
      && (rounded <= MAX_BLOCKS <==> desired <= MAX_BLOCKS * tpb)
      && (rounded - 1) * tpb < desired <= rounded * tpb
  {
    var x := desired + tpb - 1;
    var q := x / tpb;
    DivMod(x, tpb);
    DivMonotone(tpb, x, tpb);
    ModUnique(tpb, tpb, 1, 0);
    MulNext(q - 1, tpb);
    if q <= MAX_BLOCKS {
      MulMonotone(q, MAX_BLOCKS, tpb);
    } else {
      MulMonotone(MAX_BLOCKS, q - 1, tpb);
    }
  }

  // ---- Nonces ----

  /** The lane of a thread, in 32 bits. */
  function Lane(block: nat, thread: nat, tpb: nat): nat {
    (thread + block * tpb) % UINT32
  }

  /** The nonce a lane tests in step k for job j, in 32 bits. */
  function Nonce(base: word, j: word, lane: nat, perThread: nat, k: nat): nat {
    (base + j + lane * perThread + k) % UINT32
  }

  /** A thread of the launch and a step of its loop. */
  datatype Slot = Slot(block: nat, thread: nat, k: nat)

  predicate InLaunch(s: Slot, blocks: nat, tpb: nat, perThread: nat) {
    s.block < blocks && s.thread < tpb && s.k < perThread
  }

  function Tested(s: Slot, base: word, j: word, tpb: nat, perThread: nat): nat {
    Nonce(base, j, Lane(s.block, s.thread, tpb), perThread, s.k)
  }

  /** The distance of a slot's nonce from the start of the range. */
  function Offset(s: Slot, tpb: nat, perThread: nat): int {
    (s.block * tpb + s.thread) * perThread + s.k
  }

  /** The slot that tests the d-th nonce of the range. */
  function Locate(d: nat, tpb: nat, perThread: nat): Slot
    requires tpb > 0 && perThread > 0
  {
    Slot(d / perThread / tpb, d / perThread % tpb, d % perThread)
  }

  lemma MixedRadix(s: Slot, blocks: nat, tpb: nat, perThread: nat)
    requires InLaunch(s, blocks, tpb, perThread)
    ensures 0 <= s.block * tpb + s.thread < blocks * tpb
    ensures 0 <= Offset(s, tpb, perThread) < blocks * tpb * perThread
    ensures Locate(Offset(s, tpb, perThread), tpb, perThread) == s
  {
    var lane := s.block * tpb + s.thread;
    MulMonotone(s.block + 1, blocks, tpb);
    MulNext(s.block, tpb);
    assert lane < blocks * tpb;
    MulMonotone(lane + 1, blocks * tpb, perThread);
    MulNext(lane, perThread);
    ModUnique(lane * perThread + s.k, perThread, lane, s.k);
    ModUnique(lane, tpb, s.block, s.thread);
  }

  lemma LocateInLaunch(d: nat, blocks: nat, tpb: nat, perThread: nat)
    requires tpb > 0 && perThread > 0 && d < blocks * tpb * perThread
    ensures InLaunch(Locate(d, tpb, perThread), blocks, tpb, perThread)
    ensures Offset(Locate(d, tpb, perThread), tpb, perThread) == d
  {
    var lane := d / perThread;
    DivMod(d, perThread);
    DivMod(lane, tpb);
    if lane >= blocks * tpb {
      MulMonotone(blocks * tpb, lane, perThread);
    }
    if lane / tpb >= blocks {
      MulMonotone(blocks, lane / tpb, tpb);
    }
  }

  /** When the launch covers at most 2^32 nonces, 32-bit arithmetic gives the nonce at the slot's offset. */
  lemma TestedIs(s: Slot, base: word, j: word, blocks: nat, tpb: nat, perThread: nat)
    requires InLaunch(s, blocks, tpb, perThread) && blocks * tpb * perThread <= UINT32
    ensures 0 <= Offset(s, tpb, perThread) < UINT32
    ensures Tested(s, base, j, tpb, perThread) == (base + j + Offset(s, tpb, perThread)) % UINT32
  {
    MixedRadix(s, blocks, tpb, perThread);
    var lane := s.block * tpb + s.thread;
    MulMonotone(1, perThread, blocks * tpb);
    assert lane < UINT32;
    hide Offset;
    assert Lane(s.block, s.thread, tpb) == lane;
    assert Offset(s, tpb, perThread) == lane * perThread + s.k by { OffsetIs(s, tpb, perThread); }
  }

  lemma OffsetIs(s: Slot, tpb: nat, perThread: nat)
    ensures Offset(s, tpb, perThread) == (s.block * tpb + s.thread) * perThread + s.k
  {
  }

  lemma SameResidue(c: nat, x: nat, y: nat)
    requires x < UINT32 && y < UINT32 && (c + x) % UINT32 == (c + y) % UINT32
    ensures x == y
  {
  }

  /** The d-th nonce from nonce_base + j on is tested, by one thread in one step and by no other. */
  lemma EveryNonceOnce(base: word, j: word, blocks: nat, tpb: nat, perThread: nat, d: nat)
    requires tpb > 0 && perThread > 0 && d < blocks * tpb * perThread <= UINT32
    ensures
      var s := Locate(d, tpb, perThread);
      && InLaunch(s, blocks, tpb, perThread)
      && Tested(s, base, j, tpb, perThread) == (base + j + d) % UINT32
      && forall s' | InLaunch(s', blocks, tpb, perThread) &&
                     Tested(s', base, j, tpb, perThread) == (base + j + d) % UINT32
         :: s' == s
  {
    hide Locate, Offset, Tested, InLaunch;
    LocateInLaunch(d, blocks, tpb, perThread);
    var s := Locate(d, tpb, perThread);
    TestedIs(s, base, j, blocks, tpb, perThread);
    forall s' | InLaunch(s', blocks, tpb, perThread) && Tested(s', base, j, tpb, perThread) == (base + j + d) % UINT32
      ensures s' == s
    {
      TestedIs(s', base, j, blocks, tpb, perThread);
      SameResidue(base + j, Offset(s', tpb, perThread), d);
      MixedRadix(s', blocks, tpb, perThread);
    }
  }

  /** And nothing outside the range is tested. */
  lemma NothingElse(base: word, j: word, blocks: nat, tpb: nat, perThread: nat, s: Slot)
    requires InLaunch(s, blocks, tpb, perThread) && blocks * tpb * perThread <= UINT32
    ensures 0 <= Offset(s, tpb, perThread) < blocks * tpb * perThread
    ensures Tested(s, base, j, tpb, perThread) == (base + j + Offset(s, tpb, perThread)) % UINT32
  {
    hide Offset, Tested, InLaunch;
    TestedIs(s, base, j, blocks, tpb, perThread);
    MixedRadix(s, blocks, tpb, perThread);
  }

  // ---- The unrolled loop ----

  function Iota(n: nat): (ks: seq<nat>)
    ensures |ks| == n && forall k :: 0 <= k < n ==> ks[k] == k
  {
    seq(n, i => i)
  }

  /** The counter after i rounds of the unrolled loop, in 32 bits. */
  function CounterAfter(i: nat, unroll: nat): nat {
    if i == 0 then 0 else (CounterAfter(i - 1, unroll) + unroll) % UINT32
  }

  /** The guard of the unrolled loop: k + UNROLL, in 32 bits, is at most the count. */
  predicate Another(k: nat, perThread: nat, unroll: nat) {
    (k + unroll) % UINT32 <= perThread
  }

  /** The unrolled loop ends: its guard fails after some number of rounds. */
  ghost predicate Ends(perThread: nat, unroll: nat) {
    exists i: nat :: !Another(CounterAfter(i, unroll), perThread, unroll)
  }

  /** The template parameters with which the kernel is launched. */
  predicate Unrolling(unroll: nat) {
    unroll in {2, 4, 8}
  }

  /** k is a number of whole rounds. */
  predicate Aligned(k: nat, unroll: nat)
    requires Unrolling(unroll)
  {
    if unroll == 2 then k % 2 == 0 else if unroll == 4 then k % 4 == 0 else k % 8 == 0
  }

  /** Near 2^32 the sum in the guard wraps to whole rounds no larger than the count. */
  lemma WrapsAligned(perThread: word, unroll: nat, k: word)
    requires Unrolling(unroll) && perThread + unroll >= UINT32 && Aligned(k, unroll)
    ensures (k + unroll) % UINT32 <= perThread && Aligned((k + unroll) % UINT32, unroll)
  {
    MultipleBelow(2, k, UINT32);
    MultipleBelow(4, k, UINT32);
    MultipleBelow(8, k, UINT32);
    assert k + unroll <= UINT32 && Aligned(k + unroll, unroll) && Aligned(0, unroll);
    hide Aligned;
    if k + unroll < UINT32 {
      ModUnique(k + unroll, UINT32, 0, k + unroll);
    } else {
      ModUnique(k + unroll, UINT32, 1, 0);
    }
  }

  /** So no round is the last. */
  lemma {:induction false} CounterStays(perThread: word, unroll: nat, i: nat)
    requires Unrolling(unroll) && perThread + unroll >= UINT32
    ensures CounterAfter(i, unroll) < UINT32 && Aligned(CounterAfter(i, unroll), unroll)
    ensures Another(CounterAfter(i, unroll), perThread, unroll)
  {
    hide Aligned;
    if i > 0 {
      CounterStays(perThread, unroll, i - 1);
      WrapsAligned(perThread, unroll, CounterAfter(i - 1, unroll));
    } else {
      AlignedStart(unroll);
    }
    WrapsAligned(perThread, unroll, CounterAfter(i, unroll));
  }

  lemma AlignedStart(unroll: nat)
    requires Unrolling(unroll)
    ensures Aligned(0, unroll)
  {
  }

  /** Below, the counter grows by the unrolling until the guard fails. */
  lemma {:induction false} CounterGrows(perThread: word, unroll: nat, i: nat)
    requires unroll > 0 && perThread + unroll < UINT32
    requires forall j: nat :: j < i ==> Another(CounterAfter(j, unroll), perThread, unroll)
    ensures i <= CounterAfter(i, unroll) <= perThread
  {
    if i > 0 {
      CounterGrows(perThread, unroll, i - 1);
    }
  }

  /** The unrolled loop ends if and only if the count plus the unrolling stays below 2^32. */
  lemma EndsIff(perThread: word, unroll: nat)
    requires Unrolling(unroll)
    ensures Ends(perThread, unroll) <==> perThread + unroll < UINT32
  {
    if perThread + unroll < UINT32 {
      if forall i: nat :: Another(CounterAfter(i, unroll), perThread, unroll) {
        CounterGrows(perThread, unroll, perThread + 1);
      }
    } else {
      forall i: nat
        ensures Another(CounterAfter(i, unroll), perThread, unroll)
      {
        CounterStays(perThread, unroll, i);
      }
    }
  }

  /** The smallest count that keeps the kernel unrolled by eight from ending; one less and it ends. */
  lemma EndlessAt()
    ensures !Ends(0xFFFF_FFF8, 8) && Ends(0xFFFF_FFF7, 8)
  {
    EndsIff(0xFFFF_FFF8, 8);
    EndsIff(0xFFFF_FFF7, 8);
  }

  lemma CounterNext(i: nat, unroll: nat)
    ensures CounterAfter(i + 1, unroll) == (CounterAfter(i, unroll) + unroll) % UINT32
  {
  }

  /** The step number of the u-th step of a round, in 32 bits. */
  function SmallSum(k: nat, u: nat): (sum: nat)
    ensures k + u < UINT32 ==> sum == k + u
  {
    (k + u) % UINT32
  }

  /** As long as the loop ends, nothing in it wraps. */
  lemma RoundFits(n: word, unroll: nat, k: nat)
    requires n + unroll < UINT32 && k <= n
    ensures Another(k, n, unroll) <==> k + unroll <= n
    ensures (k + unroll) % UINT32 == k + unroll
  {
    ModUnique(k + unroll, UINT32, 0, k + unroll);
  }

  /** The steps the unrolled kernel visits: groups of `unroll`, then a tail. Its counter is 32 bits wide. */
  method VisitUnrolled(perThread: word, unroll: nat) returns (ks: seq<nat>)
    requires Unrolling(unroll) && Ends(perThread, unroll)
    ensures ks == Iota(perThread)
  {
    EndsIff(perThread, unroll);
    assert CounterAfter(0, unroll) == 0;
    hide Ends, Another, CounterAfter;
    ks := [];
    var k := 0;
    ghost var rounds := 0;
    while Another(k, perThread, unroll)
      invariant k == CounterAfter(rounds, unroll)
      invariant k <= perThread && ks == Iota(k)
      decreases perThread - k
    {
      RoundFits(perThread, unroll, k);
      CounterNext(rounds, unroll);
      for u := 0 to unroll
        invariant ks == Iota(k + u)
      {
        ks := ks + [SmallSum(k, u)];
      }
      k, rounds := (k + unroll) % UINT32, rounds + 1;
    }
    while k < perThread
      invariant k <= perThread && ks == Iota(k)
      decreases perThread - k
    {
      ks := ks + [k];
      k := SmallSum(k, 1);
    }
  }

  /** The unrolling launchMineWithPlanBatch picks for a count; zero is the plain kernel. */
  function Picked(noncesPerThread: nat): (unroll: nat)
    ensures unroll == 0 || Unrolling(unroll)
  {
    if noncesPerThread >= 8 then 8 else if noncesPerThread >= 4 then 4 else if noncesPerThread >= 2 then 2 else 0
  }

  /** The kernel picked for a count ends; the plain one always does. */
  ghost predicate BatchEnds(noncesPerThread: nat) {
    Picked(noncesPerThread) > 0 ==> Ends(noncesPerThread, Picked(noncesPerThread))
  }

  /** Of all 32-bit counts, the last eight are the ones whose launch never ends. */
  lemma BatchEndsIff(noncesPerThread: word)
    ensures BatchEnds(noncesPerThread) <==> noncesPerThread < 0xFFFF_FFF8
  {
    hide Ends;
    if Picked(noncesPerThread) > 0 {
      EndsIff(noncesPerThread, Picked(noncesPerThread));
    }
  }

  /** The kernel launchMineWithPlanBatch picks visits every step once, in order, whichever unrolling it is. */
  method VisitBatch(noncesPerThread: word) returns (ks: seq<nat>)
    requires BatchEnds(noncesPerThread)
    ensures ks == Iota(if noncesPerThread == 0 then 1 else noncesPerThread)
  {
    hide Ends;
    var n := if noncesPerThread == 0 then 1 else noncesPerThread;
    if n >= 8 {
      ks := VisitUnrolled(n, 8);
    } else if n >= 4 {
      ks := VisitUnrolled(n, 4);
    } else if n >= 2 {
      ks := VisitUnrolled(n, 2);
    } else {
      ks := [];
      for k := 0 to n
        invariant ks == Iota(k)
      {
        ks := ks + [k];
      }
    }
  }

  /** A launch of at least 64 lanes within the nonce range always ends. */
  lemma PerThreadSmall(blocks: nat, tpb: nat, perThread: nat)
    requires blocks >= 1 && tpb >= 64 && blocks * tpb * perThread <= UINT32
    ensures perThread < 0xFFFF_FFF8 && BatchEnds(perThread)
  {
    hide BatchEnds;
    MulMonotone(1, blocks, tpb);
    MulMonotone(64, blocks * tpb, perThread);
    BatchEndsIff(perThread);
  }
}
