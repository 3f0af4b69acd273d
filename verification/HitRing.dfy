/** Hits, and the ring positions that a wrapping 32-bit index selects. */
module HitRing {
  import opened Words
  import opened Arithmetic

  datatype Hit = Hit(workId: nat, nonce: nat)

  /** The ring slot of the p-th hit ever written: the index wraps at 2^32 and is then taken modulo the capacity. */
  function Slot(p: nat, cap: nat): (slot: nat)
    requires cap > 0
    ensures slot < cap
  {
    p % UINT32 % cap
  }

  /** The capacity divides 2^32, so the slots stay in step when the index wraps. */
  predicate GoodCapacity(cap: nat) {
    cap > 0 && UINT32 % cap == 0
  }

  /** The n hits that the ring holds from position `from` on. */
  function Window(ring: seq<Hit>, from: nat, n: nat): (w: seq<Hit>)
    requires |ring| > 0
    ensures |w| == n
  {
    seq(n, i requires 0 <= i < n => ring[Slot(from + i, |ring|)])
  }

  lemma WindowParts(ring: seq<Hit>, from: nat, n: nat, m: nat)
    requires |ring| > 0 && n <= m
    ensures Window(ring, from, m)[..n] == Window(ring, from, n)
    ensures Window(ring, from, m)[n..] == Window(ring, from + n, m - n)
  {
    hide Slot;
    forall i | 0 <= i < m - n
      ensures Window(ring, from, m)[n..][i] == Window(ring, from + n, m - n)[i]
    {
      assert from + (n + i) == (from + n) + i;
    }
  }

  lemma ModOfMultiple(p: nat, m: nat, cap: nat)
    requires cap > 0 && m > 0 && m % cap == 0
    ensures p % m % cap == p % cap
  {
    DivMod(m, cap);
    DivMod(p, m);
    DivMod(p % m, cap);
    SplitTwice(p, p / m, m / cap, p % m / cap, p % m % cap, cap);
  }

  lemma SplitTwice(p: nat, a: nat, c: nat, b: nat, t: nat, cap: nat)
    requires cap > 0 && t < cap && p == a * (c * cap) + (b * cap + t)
    ensures p % cap == t
  {
    MulAssoc(a, c, cap);
    MulDistribute(a * c, b, cap);
    ModUnique(p, cap, a * c + b, t);
  }

  lemma SlotIsMod(p: nat, cap: nat)
    requires GoodCapacity(cap)
    ensures Slot(p, cap) == p % cap
  {
    ModOfMultiple(p, UINT32, cap);
  }

  /** Advancing the wrapped index by d follows the unbounded count. */
  lemma IndexAdvance(n: nat, d: nat)
    ensures (n % UINT32 + d) % UINT32 == (n + d) % UINT32
  {
    ModAdd(n, d, UINT32);
  }

  /** When the capacity divides 2^32, fewer than `cap` consecutive positions never share a slot. */
  lemma SlotsDistinct(p: nat, q: nat, cap: nat)
    requires GoodCapacity(cap)
    requires p < q < p + cap
    ensures Slot(p, cap) != Slot(q, cap)
  {
    hide GoodCapacity, Slot;
    SlotIsMod(p, cap);
    SlotIsMod(q, cap);
    DivMod(p, cap);
    ModAfter(p, q - p, cap, p / cap, p % cap);
  }

  ghost predicate NeverShares(cap: nat)
    requires cap > 0
  {
    forall p: nat, q: nat :: p < q < p + cap ==> Slot(p, cap) != Slot(q, cap)
  }

  /** And only then: any other capacity makes two live hits share a slot where the index wraps. */
  lemma SharesIffNotDivisor(cap: nat)
    requires 0 < cap < UINT32
    ensures NeverShares(cap) <==> GoodCapacity(cap)
  {
    if UINT32 % cap == 0 {
      forall p: nat, q: nat | p < q < p + cap
        ensures Slot(p, cap) != Slot(q, cap)
      {
        SlotsDistinct(p, q, cap);
      }
    } else {
      var r := UINT32 % cap;
      var c := UINT32 / cap;
      var p, q: nat := UINT32 - r, UINT32;
      DivMod(UINT32, cap);
      assert p == c * cap + 0;
      ModUnique(p, cap, c, 0);
      assert p < UINT32 && Slot(p, cap) == 0;
      assert Slot(q, cap) == 0;
      assert p < q < p + cap;
    }
  }
}
