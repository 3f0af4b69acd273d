/**
 * The batch kernels as a whole, src/cuda/engine.cu: which nonces of which jobs are hits, and that a launch puts exactly
 * those into the ring.
 */
module BatchKernel {
  import opened Arithmetic
  import opened Words
  import opened HitRing
  import opened HitProtocol
  import opened HitSafety
  import opened LaunchPlan
  import BatchSha
  import Cpu = CpuVerify
  import Device = DeviceSha
  import Targets

  type Words8 = ws: seq<word> | |ws| == 8 witness seq(8, i => 0)

  type Bytes32 = bs: seq<byte> | |bs| == 32 witness Zeros(32)

  /** What the kernels read of a DeviceJob. */
  datatype Job = Job(workId: word64, version: word, prevhash: Words8, merkle: Words8, ntime: word, ntimeMin: word,
                     ntimeMax: word, nbits: word, midstate: Words8, shareTarget: Bytes32)

  // ---- The header ----

  /** The time of the job, kept between its bounds; a bound of zero is none. */
  function NTime(job: Job): word {
    var low := if job.ntimeMin != 0 && job.ntime < job.ntimeMin then job.ntimeMin else job.ntime;
    if job.ntimeMax != 0 && low > job.ntimeMax then job.ntimeMax else low
  }

  function HeaderWords(job: Job, nonce: word): (ws: seq<word>)
    ensures |ws| == 20
  {
    [job.version] + job.prevhash + job.merkle + [NTime(job), job.nbits, nonce]
  }

  /** The header of a job and a nonce: twenty words, each with its highest byte first. */
  function Header(job: Job, nonce: word): (header80: seq<byte>)
    ensures |header80| == 80
  {
    FromWords(HeaderWords(job, nonce))
  }

  lemma FromWordsSnoc(ws: seq<word>, i: nat)
    requires i < |ws|
    ensures FromWords(ws[..i+1]) == FromWords(ws[..i]) + WordBytes(ws[i])
  {
    assert ws[..i+1][..i] == ws[..i];
  }

  /** Four bytes of the header, from the highest of v. */
  method StoreWord(header: array<byte>, i: nat, v: word, ghost ws: seq<word>)
    requires header.Length == 80 && |ws| == 20 && i < 20 && ws[i] == v && header[..4*i] == FromWords(ws[..i])
    modifies header
    ensures header[..4*i+4] == FromWords(ws[..i+1])
  {
    hide FromWords;
    FromWordsSnoc(ws, i);
    header[4*i], header[4*i+1] := v / 0x100_0000, v / 0x1_0000 % 256;
    header[4*i+2], header[4*i+3] := v / 0x100 % 256, v % 256;
    assert header[..4*i+4] == header[..4*i] + WordBytes(v);
  }

  /** The loop over eight words, highest byte first. */
  method StoreEight(header: array<byte>, i: nat, vs: Words8, ghost ws: seq<word>)
    requires header.Length == 80 && |ws| == 20 && i + 8 <= 20 && ws[i..i+8] == vs
    requires header[..4*i] == FromWords(ws[..i])
    modifies header
    ensures header[..4*(i+8)] == FromWords(ws[..i+8])
  {
    hide FromWords;
    for w := 0 to 8
      invariant header[..4*(i+w)] == FromWords(ws[..i+w])
    {
      assert ws[i+w] == ws[i..i+8][w];
      StoreWord(header, i + w, vs[w], ws);
    }
  }

  lemma HeaderWordsAre(job: Job, nonce: word)
    ensures
      var ws := HeaderWords(job, nonce);
      && ws[0] == job.version && ws[1..9] == job.prevhash && ws[9..17] == job.merkle
      && ws[17] == NTime(job) && ws[18] == job.nbits && ws[19] == nonce
  {
    hide NTime;
  }

  predicate InBounds(job: Job, t: word) {
    (job.ntimeMin != 0 ==> job.ntimeMin <= t) && (job.ntimeMax != 0 ==> t <= job.ntimeMax)
  }

  /** Of the times in bounds the one nearest to the job's; the upper bound when the bounds contradict each other. */
  method ClampTime(job: Job) returns (ntime: word)
    ensures ntime == NTime(job)
    ensures job.ntimeMax != 0 && job.ntimeMin > job.ntimeMax ==> ntime == job.ntimeMax
    ensures job.ntimeMax == 0 || job.ntimeMin <= job.ntimeMax ==> InBounds(job, ntime)
    ensures forall t: word :: InBounds(job, t) ==> job.ntime <= ntime <= t || t <= ntime <= job.ntime
  {
    ntime := job.ntime;
    if job.ntimeMin != 0 && ntime < job.ntimeMin {
      ntime := job.ntimeMin;
    }
    if job.ntimeMax != 0 && ntime > job.ntimeMax {
      ntime := job.ntimeMax;
    }
  }

  /** The stores that assemble the header. */
  method AssembleHeader(job: Job, nonce: word) returns (header: array<byte>)
    ensures fresh(header) && header[..] == Header(job, nonce)
    ensures header.Length == 80 && header[..4] == WordBytes(job.version)
    ensures forall i :: 0 <= i < 8 ==> header[4+4*i..8+4*i] == WordBytes(job.prevhash[i])
    ensures forall i :: 0 <= i < 8 ==> header[36+4*i..40+4*i] == WordBytes(job.merkle[i])
    ensures header[68..72] == WordBytes(NTime(job)) && header[72..76] == WordBytes(job.nbits)
    ensures header[76..] == WordBytes(nonce)
  {
    ghost var ws := HeaderWords(job, nonce);
    header := new byte[80](i => 0);
    assert header[..0] == FromWords(ws[..0]) == [];
    hide FromWords, HeaderWords, WordBytes, NTime;
    HeaderWordsAre(job, nonce);
    StoreWord(header, 0, job.version, ws);
    StoreEight(header, 1, job.prevhash, ws);
    StoreEight(header, 9, job.merkle, ws);
    var ntime := ClampTime(job);
    StoreWord(header, 17, ntime, ws);
    StoreWord(header, 18, job.nbits, ws);
    StoreWord(header, 19, nonce, ws);
    assert header[..] == header[..80] && ws[..20] == ws;
    HeaderLayout(job, nonce, header[..]);
    assert header[..][..4] == header[..4] && header[..][76..] == header[76..];
    assert header[..][68..72] == header[68..72] && header[..][72..76] == header[72..76];
    assert forall i :: 0 <= i < 8 ==> header[..][4+4*i..8+4*i] == header[4+4*i..8+4*i];
    assert forall i :: 0 <= i < 8 ==> header[..][36+4*i..40+4*i] == header[36+4*i..40+4*i];
  }

  /** Where the header has its fields, each with its highest byte first. */
  lemma HeaderLayout(job: Job, nonce: word, h: seq<byte>)
    requires h == Header(job, nonce)
    ensures h[..4] == WordBytes(job.version)
    ensures forall i :: 0 <= i < 8 ==> h[4+4*i..8+4*i] == WordBytes(job.prevhash[i])
    ensures forall i :: 0 <= i < 8 ==> h[36+4*i..40+4*i] == WordBytes(job.merkle[i])
    ensures h[68..72] == WordBytes(NTime(job)) && h[72..76] == WordBytes(job.nbits) && h[76..] == WordBytes(nonce)
  {
    var ws := HeaderWords(job, nonce);
    HeaderWordsAre(job, nonce);
    assert h[76..] == h[76..80];
    hide FromWords, WordBytes, NTime, HeaderWords;
    FromWordsAt(ws, 0);
    FromWordsAt(ws, 17);
    FromWordsAt(ws, 18);
    FromWordsAt(ws, 19);
    forall i | 0 <= i < 8
      ensures h[4+4*i..8+4*i] == WordBytes(job.prevhash[i]) && h[36+4*i..40+4*i] == WordBytes(job.merkle[i])
    {
      FromWordsAt(ws, 1 + i);
      FromWordsAt(ws, 9 + i);
      assert ws[1..9][i] == ws[1+i] && ws[9..17][i] == ws[9+i];
    }
  }

  lemma {:induction false} FromWordsAt(ws: seq<word>, i: nat)
    requires i < |ws|
    ensures FromWords(ws)[4*i..4*i+4] == WordBytes(ws[i])
    decreases |ws|
  {
    hide WordBytes;
    if i < |ws| - 1 {
      FromWordsAt(ws[..|ws|-1], i);
    }
  }

  lemma BytesToWord(w: word)
    ensures var b := WordBytes(w); BE32(b[0], b[1], b[2], b[3]) == w
  {
    hide BE32;
    WordSplit(w);
  }

  /** The four words the kernels swap are the last word of the Merkle root, the time, the bits and the nonce. */
  lemma HeaderTail(job: Job, nonce: word)
    ensures BatchSha.TailWords(Header(job, nonce)) == [job.merkle[7], NTime(job), job.nbits, nonce]
  {
    hide FromWords, WordBytes, BE32, NTime;
    var ws, h := HeaderWords(job, nonce), Header(job, nonce)[64..];
    var tail := BatchSha.TailWords(Header(job, nonce));
    forall i | 0 <= i < 4
      ensures tail[i] == ws[16+i]
    {
      FromWordsAt(ws, 16 + i);
      assert h[4*i..4*i+4] == WordBytes(ws[16+i]);
      assert h[4*i..4*i+4] == [h[4*i], h[4*i+1], h[4*i+2], h[4*i+3]];
      BytesToWord(ws[16+i]);
    }
    assert ws[16] == job.merkle[7];
  }

  // ---- One nonce ----

  /** What the kernels compare: from the midstate if there is one, except where they hash the header whole. */
  function StepDigest(job: Job, nonce: word, whole: bool): (digest: seq<byte>)
    ensures |digest| == 32
  {
    if whole then Cpu.Digest(Cpu.Digest(Header(job, nonce))) else BatchSha.BatchDigest(Header(job, nonce), job.midstate)
  }

  predicate Wins(job: Job, nonce: word, whole: bool) {
    BEVal(StepDigest(job, nonce, whole)) <= BEVal(job.shareTarget)
  }

  /** One turn of either loop of the kernels, up to the decision. */
  method TryNonce(job: Job, nonce: word, whole: bool) returns (leq: bool)
    ensures leq <==>
      BEVal(if whole then Cpu.Digest(Cpu.Digest(Header(job, nonce)))
            else BatchSha.BatchDigest(Header(job, nonce), job.midstate)) <= BEVal(job.shareTarget)
  {
    hide Header, Cpu.Digest, BatchSha.BatchDigest, BEVal;
    var header := AssembleHeader(job, nonce);
    var digest := new byte[32];
    if whole {
      Device.Sha256dHeader(header[..], digest);
    } else {
      BatchSha.MineBatchDigest(header[..], job.midstate, digest);
    }
    leq := Targets.CompareBytes(digest[..], job.shareTarget);
  }

  // ---- One thread ----

  /** The first step that the unrolled loop leaves to its tail; the plain kernel has no tail. */
  function TailStart(perThread: nat, unroll: nat): (k: nat)
    ensures k <= perThread
  {
    if unroll == 2 then perThread / 2 * 2 else if unroll == 4 then perThread / 4 * 4
    else if unroll == 8 then perThread / 8 * 8 else perThread
  }

  lemma WinsIs(job: Job, nonce: word, whole: bool)
    ensures Wins(job, nonce, whole) <==>
      BEVal(if whole then Cpu.Digest(Cpu.Digest(Header(job, nonce)))
            else BatchSha.BatchDigest(Header(job, nonce), job.midstate)) <= BEVal(job.shareTarget)
  {
    hide Header, Cpu.Digest, BatchSha.BatchDigest, BEVal;
  }

  /** n pieces of one size. */
  function Span(n: nat, size: nat): nat {
    n * size
  }

  lemma SpanNext(n: nat, size: nat)
    ensures Span(0, size) == 0 && Span(n + 1, size) == Span(n, size) + size
  {
  }

  /** The shape of a launch: blocks of one job, threads of a block, steps of a thread, and where it starts. */
  datatype Grid = Grid(blocks: nat, tpb: nat, perThread: word, base: word) {

    /** It covers some nonces, and none of them twice. */
    predicate Fits() {
      tpb > 0 && perThread > 0 && Nonces() <= UINT32
    }

    /** How many nonces of each job it tries. */
    function Nonces(): nat {
      Span(Span(blocks, tpb), perThread)
    }
  }

  /** The nonce at distance d from the start of job j. */
  function NonceAt(g: Grid, j: word, d: nat): word {
    (g.base + j + d) % UINT32
  }

  /** The hit at distance d, if there is one. The tail of the unrolled kernels hashes the header whole. */
  function HitAt(g: Grid, job: Job, j: word, d: nat): (hits: seq<Hit>)
    requires g.perThread > 0
    ensures |hits| <= 1
  {
    var whole := d % g.perThread >= TailStart(g.perThread, Picked(g.perThread));
    if Wins(job, NonceAt(g, j, d), whole) then [Hit(job.workId, NonceAt(g, j, d))] else []
  }

  /**
   * The nonce at a distance is a hit if and only if its digest is at most the share target. From two nonces a thread
   * on, the last ones of a thread, as many as the unrolling leaves over, have their header hashed whole.
   */
  lemma HitAtIs(g: Grid, job: Job, j: word, d: nat)
    requires g.perThread > 0
    ensures
      var p, n := g.perThread, (g.base + j + d) % UINT32;
      var left := p % (if p >= 8 then 8 else if p >= 4 then 4 else 2);
      var whole := p >= 2 && d % p >= p - left;
      var digest := if whole then Cpu.Digest(Cpu.Digest(Header(job, n)))
                    else BatchSha.BatchDigest(Header(job, n), job.midstate);
      HitAt(g, job, j, d) == if BEVal(digest) <= BEVal(job.shareTarget) then [Hit(job.workId, n)] else []
  {
    hide Header, Cpu.Digest, BatchSha.BatchDigest, BEVal, Wins;
    var p, n := g.perThread, NonceAt(g, j, d);
    TailIs(p);
    WinsIs(job, n, d % p >= TailStart(p, Picked(p)));
    hide TailStart;
  }

  /** What the unrolling leaves over. */
  lemma TailIs(p: nat)
    ensures TailStart(p, Picked(p)) ==
      if p < 2 then p else if p < 4 then p - p % 2 else if p < 8 then p - p % 4 else p - p % 8
  {
    DivMod(p, 2);
    DivMod(p, 4);
    DivMod(p, 8);
  }

  /** The hits of a job at the n distances from `from` on, in order. */
  function HitsFrom(g: Grid, job: Job, j: word, from: nat, n: nat): seq<Hit>
    requires g.perThread > 0
  {
    if n == 0 then [] else HitsFrom(g, job, j, from, n - 1) + HitAt(g, job, j, from + n - 1)
  }

  lemma {:induction false} HitsSplit(g: Grid, job: Job, j: word, from: nat, n: nat, m: nat)
    requires g.perThread > 0
    ensures HitsFrom(g, job, j, from, n + m) == HitsFrom(g, job, j, from, n) + HitsFrom(g, job, j, from + n, m)
    decreases m
  {
    hide HitAt;
    if m > 0 {
      HitsSplit(g, job, j, from, n, m - 1);
      assert from + (n + m) - 1 == (from + n) + m - 1;
    }
  }

  /** The step k of a lane tests the nonce at its distance, from the header's midstate or whole as k decides. */
  lemma StepIs(g: Grid, job: Job, j: word, lane: nat, k: nat)
    requires k < g.perThread
    ensures
      var d := lane * g.perThread + k;
      && Nonce(g.base, j, lane, g.perThread, k) == NonceAt(g, j, d)
      && HitAt(g, job, j, d) ==
         if Wins(job, NonceAt(g, j, d), k >= TailStart(g.perThread, Picked(g.perThread)))
         then [Hit(job.workId, NonceAt(g, j, d))] else []
  {
    hide Wins, TailStart;
    ModUnique(lane * g.perThread + k, g.perThread, lane, k);
  }

  /** The k-th nonce of a thread is tried, and its hit appended if it is one. */
  method TryStep(g: Grid, job: Job, j: word, lane: nat, ghost from: nat, k: nat, whole: bool, hits: seq<Hit>)
    returns (hits': seq<Hit>)
    requires k < g.perThread && whole == (k >= TailStart(g.perThread, Picked(g.perThread)))
    requires from == lane * g.perThread && hits == HitsFrom(g, job, j, from, k)
    ensures hits' == HitsFrom(g, job, j, from, k + 1)
  {
    hide Wins, HitAt, TailStart, NonceAt, Header, Cpu.Digest, BatchSha.BatchDigest, BEVal;
    StepIs(g, job, j, lane, k);
    var nonce := Nonce(g.base, j, lane, g.perThread, k);
    var leq := TryNonce(job, nonce, whole);
    WinsIs(job, nonce, whole);
    hits' := hits + (if leq then [Hit(job.workId, nonce)] else []);
    assert from + (k + 1) - 1 == from + k;
  }

  /** The distance at which the lane of a thread starts. */
  function LaneStart(g: Grid, x: nat, t: nat): nat {
    Span(Span(x, g.tpb) + t, g.perThread)
  }

  /** The thread's loops, whichever kernel is picked: its hits are those at the distances of its lane, in order. */
  method MineThread(g: Grid, job: Job, j: word, x: nat, t: nat) returns (hits: seq<Hit>)
    requires g.perThread > 0 && g.Fits() && x < g.blocks && t < g.tpb && BatchEnds(g.perThread)
    ensures hits == HitsFrom(g, job, j, LaneStart(g, x, t), g.perThread)
  {
    hide *;
    LaneIs(g, x, t);
    hits := MineLane(g, job, j, Lane(x, t, g.tpb), LaneStart(g, x, t));
  }

  method MineLane(g: Grid, job: Job, j: word, lane: nat, ghost from: nat) returns (hits: seq<Hit>)
    requires g.perThread > 0 && BatchEnds(g.perThread) && from == lane * g.perThread
    ensures hits == HitsFrom(g, job, j, from, g.perThread)
  {
    hide *;
    var n, unroll := g.perThread, Picked(g.perThread);
    var k := 0;
    if unroll > 0 {
      PickedEnds(n);
      hits, k := UnrolledRounds(g, job, j, lane, from);
    } else {
      hits := [];
      PlainTail(n);
      NoHits(g, job, j, from);
    }
    while k < n
      invariant k <= n && (unroll > 0 ==> k >= TailStart(n, unroll))
      invariant hits == HitsFrom(g, job, j, from, k)
    {
      hits := TryStep(g, job, j, lane, from, k, unroll > 0, hits);
      k := k + 1;
    }
  }

  lemma NoHits(g: Grid, job: Job, j: word, from: nat)
    requires g.perThread > 0
    ensures HitsFrom(g, job, j, from, 0) == []
  {
  }

  lemma PickedEnds(perThread: nat)
    requires BatchEnds(perThread) && Picked(perThread) > 0
    ensures Ends(perThread, Picked(perThread)) && perThread > 0
  {
  }

  lemma PlainTail(perThread: nat)
    requires Picked(perThread) == 0
    ensures TailStart(perThread, 0) == perThread
  {
  }

  /** Lanes within the nonce range are not cut to 32 bits. */
  lemma LaneIs(g: Grid, x: nat, t: nat)
    requires g.Fits() && x < g.blocks && t < g.tpb
    ensures Lane(x, t, g.tpb) == x * g.tpb + t < UINT32 && LaneStart(g, x, t) == Lane(x, t, g.tpb) * g.perThread
  {
    MixedRadix(LaunchPlan.Slot(x, t, 0), g.blocks, g.tpb, g.perThread);
    MulMonotone(1, g.perThread, g.blocks * g.tpb);
  }

  /** The unrolled loop: all steps before the tail. */
  method UnrolledRounds(g: Grid, job: Job, j: word, lane: nat, ghost from: nat) returns (hits: seq<Hit>, k: nat)
    requires g.perThread > 0 && Picked(g.perThread) > 0 && Ends(g.perThread, Picked(g.perThread))
    requires from == lane * g.perThread
    ensures k == TailStart(g.perThread, Picked(g.perThread))
    ensures hits == HitsFrom(g, job, j, from, k)
  {
    hide *;
    var n, unroll := g.perThread, Picked(g.perThread);
    EndsIff(n, unroll);
    AlignedStart(unroll);
    hits, k := [], 0;
    NoHits(g, job, j, from);
    while Another(k, n, unroll)
      invariant k <= n && Aligned(k, unroll) && hits == HitsFrom(g, job, j, from, k)
      decreases n - k
    {
      RoundFits(n, unroll, k);
      BeforeTail(n, unroll, k);
      for u := 0 to unroll
        invariant hits == HitsFrom(g, job, j, from, k + u)
      {
        hits := TryStep(g, job, j, lane, from, k + u, false, hits);
      }
      k := (k + unroll) % UINT32;
    }
    RoundFits(n, unroll, k);
    AtTail(n, unroll, k);
  }

  lemma BeforeTail(n: nat, unroll: nat, k: nat)
    requires Unrolling(unroll) && Aligned(k, unroll) && k + unroll <= n
    ensures unroll > 0 && k + unroll <= TailStart(n, unroll) && Aligned(k + unroll, unroll)
  {
    NextMultiple(2, k, n);
    NextMultiple(4, k, n);
    NextMultiple(8, k, n);
  }

  lemma AtTail(n: nat, unroll: nat, k: nat)
    requires Unrolling(unroll) && Aligned(k, unroll) && k <= n < k + unroll
    ensures k == TailStart(n, unroll)
  {
    LastMultiple(2, k, n);
    LastMultiple(4, k, n);
    LastMultiple(8, k, n);
  }

  // ---- One launch ----

  /** These threads are to find the hits of consecutive lanes from `lane` on. */
  ghost predicate AreLanes(g: Grid, job: Job, j: word, threads: seq<Thread>, lane: nat)
    requires g.perThread > 0
  {
    forall t :: 0 <= t < |threads| ==>
      threads[t].todo == HitsFrom(g, job, j, Span(lane + t, g.perThread), g.perThread)
  }

  lemma LanesTail(g: Grid, job: Job, j: word, threads: seq<Thread>, lane: nat)
    requires g.perThread > 0 && AreLanes(g, job, j, threads, lane) && |threads| > 0
    ensures threads[0].todo == HitsFrom(g, job, j, Span(lane, g.perThread), g.perThread)
    ensures AreLanes(g, job, j, threads[1..], lane + 1)
  {
    hide HitsFrom, Span;
    assert threads[0].todo == HitsFrom(g, job, j, Span(lane + 0, g.perThread), g.perThread);
    forall t | 0 <= t < |threads[1..]|
      ensures threads[1..][t].todo == HitsFrom(g, job, j, Span((lane + 1) + t, g.perThread), g.perThread)
    {
      assert threads[1..][t] == threads[t+1] && (lane + 1) + t == lane + (t + 1);
    }
  }

  /** The hits of consecutive lanes are the hits at consecutive distances. */
  lemma {:induction false} PendingRange(g: Grid, job: Job, j: word, threads: seq<Thread>, lane: nat)
    requires g.perThread > 0 && AreLanes(g, job, j, threads, lane)
    ensures Pending(threads) ==
      multiset(HitsFrom(g, job, j, Span(lane, g.perThread), Span(|threads|, g.perThread)))
    decreases |threads|
  {
    hide HitsFrom, Span, AreLanes;
    var p := g.perThread;
    SpanNext(lane, p);
    if |threads| == 0 {
      NoHits(g, job, j, Span(lane, p));
    } else {
      var rest := threads[1..];
      LanesTail(g, job, j, threads, lane);
      PendingRange(g, job, j, rest, lane + 1);
      SpanNext(|rest|, p);
      HitsSplit(g, job, j, Span(lane, p), p, Span(|rest|, p));
    }
  }

  /** Block x of a job, before it starts: each thread is to find the hits of its lane. */
  ghost predicate IsBlock(g: Grid, job: Job, j: word, x: nat, b: Block)
    requires g.perThread > 0
  {
    && Fresh(b) && |b.threads| == g.tpb
    && forall t :: 0 <= t < g.tpb ==> b.threads[t].todo == HitsFrom(g, job, j, LaneStart(g, x, t), g.perThread)
  }

  lemma BlockPending(g: Grid, job: Job, j: word, x: nat, b: Block)
    requires g.perThread > 0 && IsBlock(g, job, j, x, b)
    ensures
      var size := Span(g.tpb, g.perThread);
      Pending(b.threads) == multiset(HitsFrom(g, job, j, Span(x, size), size))
  {
    hide HitsFrom, Span;
    PendingRange(g, job, j, b.threads, Span(x, g.tpb));
    SpanOfSpan(x, g.tpb, g.perThread);
  }

  lemma SpanOfSpan(x: nat, n: nat, size: nat)
    ensures Span(Span(x, n), size) == Span(x, Span(n, size))
  {
    MulAssoc(x, n, size);
  }

  /** The blocks of a job from block x on, as many as the sequence is long. */
  ghost predicate AreBlocks(g: Grid, job: Job, j: word, x: nat, bs: seq<Block>)
    requires g.perThread > 0
  {
    forall i :: 0 <= i < |bs| ==> IsBlock(g, job, j, x + i, bs[i])
  }

  lemma {:induction false} TotalRange(g: Grid, job: Job, j: word, x: nat, bs: seq<Block>, size: nat)
    requires g.perThread > 0 && size == Span(g.tpb, g.perThread) && AreBlocks(g, job, j, x, bs)
    ensures Total(LaunchHits(bs)) == multiset(HitsFrom(g, job, j, Span(x, size), Span(|bs|, size)))
    decreases |bs|
  {
    hide HitsFrom, IsBlock, Span, Pending;
    SpanNext(x, size);
    if |bs| == 0 {
      NoHits(g, job, j, Span(x, size));
    } else {
      var rest := bs[1..];
      forall i | 0 <= i < |rest|
        ensures IsBlock(g, job, j, (x + 1) + i, rest[i])
      {
        assert rest[i] == bs[i+1] && (x + 1) + i == x + (i + 1);
      }
      TotalRange(g, job, j, x + 1, rest, size);
      assert IsBlock(g, job, j, x + 0, bs[0]);
      BlockPending(g, job, j, x, bs[0]);
      assert LaunchHits(bs)[1..] == LaunchHits(rest);
      SpanNext(|rest|, size);
      HitsSplit(g, job, j, Span(x, size), size, Span(|rest|, size));
    }
  }

  /** The blocks of a launch: all blocks of job j, then those of the jobs after it. */
  ghost predicate IsLaunch(g: Grid, jobs: seq<Job>, j: nat, blocks: seq<Block>)
    requires g.perThread > 0 && j + |jobs| <= UINT32
    decreases |jobs|
  {
    if |jobs| == 0 then blocks == []
    else
      && g.blocks <= |blocks| && AreBlocks(g, jobs[0], j, 0, blocks[..g.blocks])
      && IsLaunch(g, jobs[1..], j + 1, blocks[g.blocks..])
  }

  /** Every hit among the nonces of every job. */
  function AllHits(g: Grid, jobs: seq<Job>, j: nat): multiset<Hit>
    requires g.perThread > 0 && j + |jobs| <= UINT32
    decreases |jobs|
  {
    if |jobs| == 0 then multiset{}
    else multiset(HitsFrom(g, jobs[0], j, 0, g.Nonces())) + AllHits(g, jobs[1..], j + 1)
  }

  lemma {:induction false} TotalConcat(a: seq<multiset<Hit>>, b: seq<multiset<Hit>>)
    ensures Total(a + b) == Total(a) + Total(b)
  {
    if |a| == 0 {
      assert a + b == b;
    } else {
      assert (a + b)[1..] == a[1..] + b;
      TotalConcat(a[1..], b);
    }
  }

  /** The hits the threads of a launch are to find are the hits among the nonces of its jobs. */
  lemma {:induction false} LaunchTotal(g: Grid, jobs: seq<Job>, j: nat, blocks: seq<Block>)
    requires g.perThread > 0 && j + |jobs| <= UINT32 && IsLaunch(g, jobs, j, blocks)
    ensures Total(LaunchHits(blocks)) == AllHits(g, jobs, j)
    decreases |jobs|
  {
    hide HitsFrom, AreBlocks, LaunchHits;
    if |jobs| == 0 {
      assert LaunchHits(blocks) == [];
    } else {
      var mine, rest := blocks[..g.blocks], blocks[g.blocks..];
      LaunchTotal(g, jobs[1..], j + 1, rest);
      TotalRange(g, jobs[0], j, 0, mine, Span(g.tpb, g.perThread));
      SpanNext(0, Span(g.tpb, g.perThread));
      SpanOfSpan(g.blocks, g.tpb, g.perThread);
      assert LaunchHits(blocks) == LaunchHits(mine) + LaunchHits(rest) by { HitsConcat(blocks, g.blocks); }
      TotalConcat(LaunchHits(mine), LaunchHits(rest));
    }
  }

  lemma HitsConcat(blocks: seq<Block>, n: nat)
    requires n <= |blocks|
    ensures LaunchHits(blocks) == LaunchHits(blocks[..n]) + LaunchHits(blocks[n..])
  {
    hide Pending;
  }

  /**
   * A launch under any schedule, over a ring with room: when it is over, the slots behind the undrained hits hold
   * exactly the hits among all nonces of all jobs.
   */
  lemma LaunchFindsAll(g: Grid, jobs: seq<Job>, s: State, schedule: seq<(nat, nat)>, drained: nat)
    requires g.perThread > 0 && |jobs| <= UINT32 && IsLaunch(g, jobs, 0, s.blocks)
    requires Launched(s, drained)
    requires forall k :: 0 <= k < |Run(s, schedule).blocks| ==> Finished(Run(s, schedule).blocks[k])
    ensures
      var r, hits := Run(s, schedule), AllHits(g, jobs, 0);
      && |r.ring| > 0 && |r.log| == |s.log| + |hits|
      && multiset(Window(r.ring, |s.log|, |hits|)) == hits
  {
    hide Launched, Run, Window, IsLaunch, AllHits, Finished;
    LaunchTotal(g, jobs, 0, s.blocks);
    LaunchedRing(s, drained);
    LaunchDelivers(s, schedule, drained);
  }

  // ---- Each nonce once ----

  lemma NoncesApart(g: Grid, j: word, c: nat, d: nat)
    requires c < UINT32 && d < UINT32
    ensures NonceAt(g, j, c) == NonceAt(g, j, d) <==> c == d
  {
    if NonceAt(g, j, c) == NonceAt(g, j, d) {
      SameResidue(g.base + j, c, d);
    }
  }

  /** Among at most 2^32 nonces, a hit is counted once if its nonce meets the target, and not at all if it does not. */
  lemma {:induction false} HitOnce(g: Grid, job: Job, j: word, n: nat, d: nat)
    requires g.perThread > 0 && n <= UINT32 && d < UINT32
    ensures
      multiset(HitsFrom(g, job, j, 0, n))[Hit(job.workId, NonceAt(g, j, d))] ==
      if d < n && HitAt(g, job, j, d) != [] then 1 else 0
    decreases n
  {
    hide *;
    if n == 0 {
      NoHits(g, job, j, 0);
    } else {
      HitOnce(g, job, j, n - 1, d);
      HitIs(g, job, j, n - 1);
      HitIs(g, job, j, d);
      NoncesApart(g, j, n - 1, d);
      var before, last := HitsFrom(g, job, j, 0, n - 1), HitAt(g, job, j, n - 1);
      HitsSnoc(g, job, j, n - 1);
      assert multiset(before + last) == multiset(before) + multiset(last);
    }
  }

  lemma HitsSnoc(g: Grid, job: Job, j: word, n: nat)
    requires g.perThread > 0
    ensures HitsFrom(g, job, j, 0, n + 1) == HitsFrom(g, job, j, 0, n) + HitAt(g, job, j, n)
  {
    hide HitAt;
  }

  lemma HitIs(g: Grid, job: Job, j: word, d: nat)
    requires g.perThread > 0
    ensures HitAt(g, job, j, d) == [] || HitAt(g, job, j, d) == [Hit(job.workId, NonceAt(g, j, d))]
  {
    hide Wins;
  }

  /** A job has no hits with the work id of another. */
  lemma {:induction false} NotOfJob(g: Grid, job: Job, j: word, n: nat, hit: Hit)
    requires g.perThread > 0 && hit.workId != job.workId
    ensures multiset(HitsFrom(g, job, j, 0, n))[hit] == 0
    decreases n
  {
    hide HitAt;
    if n > 0 {
      NotOfJob(g, job, j, n - 1, hit);
      HitIs(g, job, j, n - 1);
      var before, last := HitsFrom(g, job, j, 0, n - 1), HitAt(g, job, j, n - 1);
      assert multiset(before + last) == multiset(before) + multiset(last);
    }
  }

  /**
   * Among all the hits of a launch of at most 2^32 nonces a job, for jobs with different work ids, each nonce of each
   * job is counted once if it meets the job's target, and not at all if it does not.
   */
  lemma {:induction false} LaunchHitOnce(g: Grid, jobs: seq<Job>, j: nat, a: nat, d: nat)
    requires g.perThread > 0 && j + |jobs| <= UINT32 && a < |jobs| && d < g.Nonces() <= UINT32
    requires forall i, k :: 0 <= i < k < |jobs| ==> jobs[i].workId != jobs[k].workId
    ensures
      AllHits(g, jobs, j)[Hit(jobs[a].workId, NonceAt(g, j + a, d))] ==
      if HitAt(g, jobs[a], j + a, d) != [] then 1 else 0
    decreases |jobs|
  {
    hide HitsFrom, HitAt, NonceAt;
    var hit, n := Hit(jobs[a].workId, NonceAt(g, j + a, d)), g.Nonces();
    if a == 0 {
      HitOnce(g, jobs[0], j, n, d);
      NotOfJobs(g, jobs[1..], j + 1, hit);
    } else {
      NotOfJob(g, jobs[0], j, n, hit);
      LaunchHitOnce(g, jobs[1..], j + 1, a - 1, d);
      assert j + 1 + (a - 1) == j + a;
    }
  }

  lemma {:induction false} NotOfJobs(g: Grid, jobs: seq<Job>, j: nat, hit: Hit)
    requires g.perThread > 0 && j + |jobs| <= UINT32 && forall i :: 0 <= i < |jobs| ==> jobs[i].workId != hit.workId
    ensures AllHits(g, jobs, j)[hit] == 0
    decreases |jobs|
  {
    hide HitsFrom;
    if |jobs| > 0 {
      NotOfJob(g, jobs[0], j, g.Nonces(), hit);
      NotOfJobs(g, jobs[1..], j + 1, hit);
    }
  }
}
