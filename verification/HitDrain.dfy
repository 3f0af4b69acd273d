/** The host side of the hit ring, drainDeviceHits in src/cuda/engine.cu. */
module HitDrain {
  import opened Words
  import opened Arithmetic
  import opened HitRing

  /** Entries written since the last drain, from the two wrapping 32-bit counters. */
  function Available(writeIdx: nat, offset: nat): (n: int)
    ensures offset < UINT32 ==> n >= 0
  {
    if writeIdx >= offset then writeIdx - offset else 0xFFFF_FFFF - offset + 1 + writeIdx
  }

  /** Where in the buffer the next entry to drain is. */
  function RingStart(offset: nat, cap: nat): (start: nat)
    requires cap > 0
    ensures start < cap
  {
    offset % cap
  }

  /** The length of the first copy: up to the end of the buffer. */
  function First(cap: nat, offset: nat, n: nat): (first: nat)
    requires cap > 0
    ensures first <= n
  {
    if n < cap - RingStart(offset, cap) then n else cap - RingStart(offset, cap)
  }

  /** Both copies read entries of the buffer only: the first from the start position, the second from the front. */
  predicate CopiesInside(cap: nat, offset: nat, n: nat)
    requires cap > 0
  {
    RingStart(offset, cap) + First(cap, offset, n) <= cap && n - First(cap, offset, n) <= cap
  }

  /** That is so if and only if the entries end before the buffer does for the second time. */
  lemma CopiesInsideIff(cap: nat, offset: nat, n: nat)
    requires cap > 0
    ensures CopiesInside(cap, offset, n) <==> offset % cap + n <= 2 * cap
    ensures n <= cap ==> CopiesInside(cap, offset, n)
  {
    assert RingStart(offset, cap) == offset % cap;
    hide RingStart;
  }

  /** n entries copied from the ring from `offset` on, in one piece or in two. */
  function Copied(ring: seq<Hit>, offset: nat, n: nat): (out: seq<Hit>)
    requires 0 < |ring| && CopiesInside(|ring|, offset, n)
    ensures |out| == n
  {
    var start := RingStart(offset, |ring|);
    if start + n <= |ring| then ring[start..start+n] else ring[start..] + ring[..start+n-|ring|]
  }

  /** When more entries are due than the ring holds, the later ones are the earlier ones once more. */
  lemma OverrunRepeats(ring: seq<Hit>, offset: nat, n: nat, i: nat)
    requires 0 < |ring| && CopiesInside(|ring|, offset, n) && i + |ring| < n
    ensures Copied(ring, offset, n)[i + |ring|] == Copied(ring, offset, n)[i]
  {
    hide RingStart;
  }

  lemma AvailableIsExact(written: nat, drained: nat)
    requires drained <= written < drained + UINT32
    ensures Available(written % UINT32, drained % UINT32) == written - drained
  {
  }

  lemma SlotAfter(p: nat, i: nat, cap: nat)
    requires GoodCapacity(cap) && i < cap
    ensures
      var start := Slot(p, cap);
      Slot(p + i, cap) == if start + i < cap then start + i else start + i - cap
  {
    hide GoodCapacity, Slot;
    SlotIsMod(p, cap);
    SlotIsMod(p + i, cap);
    DivMod(p, cap);
    ModAfter(p, i, cap, p / cap, p % cap);
  }

  /** Whether or not the copy is split, it reads the next n positions in order, across the wrap of the offset. */
  lemma CopiedIsWindow(ring: seq<Hit>, drained: nat, n: nat)
    requires GoodCapacity(|ring|) && n <= |ring|
    ensures Copied(ring, drained % UINT32, n) == Window(ring, drained, n)
  {
    var out := Copied(ring, drained % UINT32, n);
    forall i | 0 <= i < n
      ensures out[i] == Window(ring, drained, n)[i]
    {
      SlotAfter(drained, i, |ring|);
    }
  }

  /**
   * The ring holds every undrained hit. `log` is the hits ever written and `drained` how many of them were handed over;
   * the counters follow both in 32 bits.
   */
  ghost predicate Holds(ring: seq<Hit>, writeIdx: nat, offset: nat, log: seq<Hit>, drained: nat) {
    && GoodCapacity(|ring|) && |ring| < UINT32
    && writeIdx == |log| % UINT32 && offset == drained % UINT32
    && drained <= |log| <= drained + |ring|
    && Window(ring, drained, |log| - drained) == log[drained..]
  }

  /** How many entries a call with room for maxOut hands over. */
  function Due(writeIdx: nat, offset: nat, maxOut: nat): (n: int)
    ensures offset < UINT32 ==> 0 <= n <= maxOut
  {
    var available := Available(writeIdx, offset);
    if available > maxOut then maxOut else available
  }

  /** Such a ring can be drained, hands over the oldest undrained hits, and holds the others after that. */
  lemma DrainHolds(ring: seq<Hit>, writeIdx: nat, offset: nat, log: seq<Hit>, drained: nat, maxOut: nat)
    requires Holds(ring, writeIdx, offset, log, drained)
    ensures |ring| > 0
    ensures
      var n := Due(writeIdx, offset, maxOut);
      && n == (if |log| - drained <= maxOut then |log| - drained else maxOut)
      && 0 <= n <= |ring| && CopiesInside(|ring|, offset, n) && drained + n <= |log|
      && Copied(ring, offset, n) == log[drained..drained+n]
      && Holds(ring, writeIdx, (offset + n) % UINT32, log, drained + n)
  {
    hide Window, Available, Copied, CopiesInside;
    assert |ring| > 0;
    hide GoodCapacity;
    AvailableIsExact(|log|, drained);
    var n := Due(writeIdx, offset, maxOut);
    CopiesInsideIff(|ring|, offset, n);
    DrainMoves(ring, log, drained, n);
  }

  /** The ring and the two counters; `log` and `drained` are the unbounded history they stand for. */
  class HitQueue {
    var buffer: array?<Hit>
    var writeIdx: word
    var drainOffset: word
    ghost var log: seq<Hit>
    ghost var drained: nat

    ghost predicate Valid()
      reads this, buffer
    {
      buffer != null ==> Holds(buffer[..], writeIdx, drainOffset, log, drained)
    }

    /** A call with room for maxOut reads nothing outside the buffer. */
    predicate CanDrain(maxOut: nat)
      reads this
    {
      buffer != null && buffer.Length > 0 ==>
        CopiesInside(buffer.Length, drainOffset, Due(writeIdx, drainOffset, maxOut))
    }

    /** A ring that holds every undrained hit can always be drained. */
    lemma ValidCanDrain(maxOut: nat)
      requires Valid()
      ensures CanDrain(maxOut)
    {
      if buffer != null {
        DrainHolds(buffer[..], writeIdx, drainOffset, log, drained, maxOut);
      }
    }

    /** initDeviceHitBuffer: a zero capacity is taken as one. */
    method InitDeviceHitBuffer(capacity: nat, anyHit: Hit)
      requires capacity < UINT32
      modifies this
      ensures buffer != null && fresh(buffer) && buffer.Length == (if capacity == 0 then 1 else capacity)
      ensures writeIdx == 0 && drainOffset == 0 && log == [] && drained == 0
      ensures GoodCapacity(buffer.Length) ==> Valid()
    {
      var n := if capacity == 0 then 1 else capacity;
      buffer := new Hit[n](_ => anyHit);
      writeIdx, drainOffset, log, drained := 0, 0, [], 0;
    }

    /** The entries due are copied out, and the offset moves on by their number, in 32 bits. */
    method CopyDue(out: array<Hit>, maxOut: nat) returns (ok: bool, count: nat)
      requires CanDrain(maxOut) && maxOut <= out.Length && out != buffer
      modifies this`drainOffset, out
      ensures ok == (buffer != null && buffer.Length > 0)
      ensures !ok ==> count == 0 && drainOffset == old(drainOffset)
      ensures ok ==> count == Due(writeIdx, old(drainOffset), maxOut)
      ensures ok ==> out[..count] == Copied(old(buffer[..]), old(drainOffset), count)
      ensures ok ==> drainOffset == (old(drainOffset) + count) % UINT32
      ensures out[count..] == old(out[count..])
    {
      hide Available, Copied, CopiesInside;
      if buffer == null || buffer.Length == 0 {
        return false, 0;
      }
      var available := Available(writeIdx, drainOffset);
      if available == 0 {
        CopiedNothing(buffer[..], drainOffset);
        return true, 0;
      }
      var toCopy := if available > maxOut then maxOut else available;
      CopyOut(buffer, drainOffset, toCopy, out);
      drainOffset := (drainOffset + toCopy) % UINT32;
      return true, toCopy;
    }

    /**
     * drainDeviceHits: on a ring that holds every undrained hit it hands over the oldest of them, as many as there are
     * and the caller has room for, in order.
     */
    method DrainDeviceHits(out: array<Hit>, maxOut: nat) returns (ok: bool, count: nat)
      requires CanDrain(maxOut) && maxOut <= out.Length && out != buffer
      modifies this`drainOffset, this`drained, out
      ensures ok == (buffer != null && buffer.Length > 0)
      ensures !ok ==> count == 0 && drainOffset == old(drainOffset)
      ensures ok ==> count == Due(writeIdx, old(drainOffset), maxOut)
      ensures ok ==> out[..count] == Copied(old(buffer[..]), old(drainOffset), count)
      ensures ok ==> drainOffset == (old(drainOffset) + count) % UINT32
      ensures out[count..] == old(out[count..])
      ensures drained == old(drained) + count && (old(Valid()) ==> Valid())
      ensures old(Valid()) && ok ==>
        && count == (if |log| - old(drained) <= maxOut then |log| - old(drained) else maxOut)
        && out[..count] == log[old(drained)..drained]
    {
      hide Due, Copied, CopiesInside, Holds;
      ok, count := CopyDue(out, maxOut);
      if ok && old(Valid()) {
        DrainHolds(old(buffer[..]), writeIdx, old(drainOffset), log, drained, maxOut);
        assert buffer[..] == old(buffer[..]);
      }
      drained := drained + count;
    }
  }

  lemma CopiedNothing(ring: seq<Hit>, offset: nat)
    requires |ring| > 0
    ensures CopiesInside(|ring|, offset, 0) && Copied(ring, offset, 0) == []
  {
  }

  /** cudaMemcpy of n entries between different buffers. */
  method Memcpy(dst: array<Hit>, dstAt: nat, src: array<Hit>, srcAt: nat, n: nat)
    requires dst != src && dstAt + n <= dst.Length && srcAt + n <= src.Length
    modifies dst
    ensures dst[dstAt..dstAt+n] == src[srcAt..srcAt+n]
    ensures dst[..dstAt] == old(dst[..dstAt]) && dst[dstAt+n..] == old(dst[dstAt+n..])
  {
    for i := 0 to n
      modifies dst
      invariant dst[dstAt..dstAt+i] == src[srcAt..srcAt+i]
      invariant dst[..dstAt] == old(dst[..dstAt]) && dst[dstAt+n..] == old(dst[dstAt+n..])
    {
      dst[dstAt + i] := src[srcAt + i];
    }
  }

  /** The two pieces of the copy. */
  lemma CopiedParts(ring: seq<Hit>, offset: nat, n: nat)
    requires 0 < |ring| && CopiesInside(|ring|, offset, n)
    ensures
      var start, first := RingStart(offset, |ring|), First(|ring|, offset, n);
      && start + first <= |ring| && 0 <= n - first <= |ring|
      && Copied(ring, offset, n) == ring[start..start+first] + ring[..n-first]
  {
    hide RingStart;
    var start, first := RingStart(offset, |ring|), First(|ring|, offset, n);
    assert first < n ==> start + first == |ring|;
    assert ring[..0] == [] && ring[start..start+first] + [] == ring[start..start+first];
  }

  /** The copy from the ring with wrap handling: one piece, or two when it runs past the end of the buffer. */
  method CopyOut(buffer: array<Hit>, offset: nat, toCopy: nat, out: array<Hit>)
    requires 0 < buffer.Length && CopiesInside(buffer.Length, offset, toCopy) && toCopy <= out.Length && out != buffer
    modifies out
    ensures out[..toCopy] == Copied(buffer[..], offset, toCopy) && out[toCopy..] == old(out[toCopy..])
  {
    CopiedParts(buffer[..], offset, toCopy);
    var cap := buffer.Length;
    var start := RingStart(offset, cap);
    var first := if toCopy < cap - start then toCopy else cap - start;
    assert first == First(cap, offset, toCopy);
    hide *;
    ghost var head, rest := buffer[..][start..start+first], buffer[..][..toCopy-first];
    if first > 0 {
      Memcpy(out, 0, buffer, start, first);
    }
    assert out[..first] == head;
    if first < toCopy {
      Memcpy(out, first, buffer, 0, toCopy - first);
      assert out[first..toCopy] == rest;
    }
    JoinParts(out[..], first, toCopy);
    assert out[..][..first] == head && out[..][first..toCopy] == rest && out[..][..toCopy] == out[..toCopy];
  }

  lemma JoinParts(s: seq<Hit>, m: nat, n: nat)
    requires m <= n <= |s|
    ensures s[..n] == s[..m] + s[m..n]
  {
  }

  /** Draining n hits moves the window n positions on. */
  lemma DrainMoves(ring: seq<Hit>, log: seq<Hit>, drained: nat, n: nat)
    requires GoodCapacity(|ring|) && n <= |ring| && drained + n <= |log|
    requires Window(ring, drained, |log| - drained) == log[drained..]
    ensures Copied(ring, drained % UINT32, n) == log[drained..drained+n]
    ensures Window(ring, drained + n, |log| - (drained + n)) == log[drained+n..]
    ensures (drained % UINT32 + n) % UINT32 == (drained + n) % UINT32
  {
    CopiedIsWindow(ring, drained, n);
    WindowParts(ring, drained, n, |log| - drained);
    IndexAdvance(drained, n);
    hide Window, Copied, GoodCapacity;
    assert log[drained..][..n] == log[drained..drained+n];
    assert log[drained..][n..] == log[drained+n..];
  }
}
