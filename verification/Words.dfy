/**
 * Bytes, 32-bit words, and the operations on them. Both are integers, so that wrapping sums and byte splitting are
 * plain arithmetic: `|` of fields that do not overlap is their sum. The bitwise operators recurse over the bits.
 */
module Words {
  import opened Arithmetic

  const UINT32 := 0x1_0000_0000
  const UINT64 := 0x1_0000_0000_0000_0000

  type byte = x: int | 0 <= x < 256

  type word = x: int | 0 <= x < 0x1_0000_0000

  type word64 = x: int | 0 <= x < 0x1_0000_0000_0000_0000

  function Pow2(n: nat): (p: nat)
    ensures p > 0
  {
    if n == 0 then 1 else 2 * Pow2(n - 1)
  }

  /** x & y, bit by bit from the lowest. */
  function BitAnd(x: nat, y: nat): nat
    decreases x, y
  {
    if x == 0 || y == 0 then 0 else (if x % 2 == 1 && y % 2 == 1 then 1 else 0) + 2 * BitAnd(x / 2, y / 2)
  }

  /** x ^ y, bit by bit from the lowest. */
  function BitXor(x: nat, y: nat): nat
    decreases x, y
  {
    if x == 0 then y else (if x % 2 == y % 2 then 0 else 1) + 2 * BitXor(x / 2, y / 2)
  }

  lemma {:induction false} BitBounds(x: nat, y: nat, n: nat)
    requires x < Pow2(n) && y < Pow2(n)
    ensures BitAnd(x, y) < Pow2(n) && BitXor(x, y) < Pow2(n)
  {
    if n > 0 {
      BitBounds(x / 2, y / 2, n - 1);
    }
  }

  lemma {:induction false} XorZero(x: nat)
    ensures BitXor(x, 0) == x
    decreases x
  {
    if x > 0 {
      XorZero(x / 2);
    }
  }

  lemma XorEven(x: nat, y: nat)
    ensures BitXor(2 * x, y) == y % 2 + 2 * BitXor(x, y / 2)
  {
    assert 2 * x % 2 == 0 && 2 * x / 2 == x;
  }

  lemma DoublePow(h: nat, n: nat)
    requires n > 0
    ensures h * Pow2(n) == 2 * (h * Pow2(n - 1))
  {
  }

  /** Fields that do not overlap: x ^ y is their sum when y lies below the n zero bits of x. */
  lemma {:induction false} XorOfDisjoint(h: nat, y: nat, n: nat)
    requires y < Pow2(n)
    ensures BitXor(h * Pow2(n), y) == h * Pow2(n) + y
    decreases n
  {
    hide BitXor;
    if n == 0 {
      XorZero(h);
    } else {
      XorOfDisjoint(h, y / 2, n - 1);
      DoublePow(h, n);
      XorEven(h * Pow2(n - 1), y);
    }
  }

  lemma Pow2Word()
    ensures Pow2(32) == 0x1_0000_0000
  {
    assert Pow2(8) == 0x100;
    assert Pow2(16) == 0x1_0000;
    assert Pow2(24) == 0x100_0000;
  }

  function And(x: word, y: word): word {
    Pow2Word();
    BitBounds(x, y, 32);
    BitAnd(x, y)
  }

  function Xor(x: word, y: word): word {
    Pow2Word();
    BitBounds(x, y, 32);
    BitXor(x, y)
  }

  function Not(x: word): word { 0xFFFF_FFFF - x }

  /** x >> n. */
  function Shr(x: word, n: nat): word
    decreases n, x
  {
    if n == 0 then x else Shr(x / 2, n - 1)
  }

  /** (x >> n) | (x << (32 - n)): n rotations by one bit. */
  function Rotr(x: word, n: nat): word
    decreases n, x
  {
    if n == 0 then x else Rotr(x / 2 + x % 2 * 0x8000_0000, n - 1)
  }

  function Add(x: word, y: word): word { (x + y) % 0x1_0000_0000 }

  lemma AddAssoc(p: word, q: word, r: word)
    ensures Add(Add(p, q), r) == Add(p, Add(q, r))
  {
    ModAdd(p + q, r, 0x1_0000_0000);
    ModAdd(q + r, p, 0x1_0000_0000);
  }

  lemma AddComm(p: word, q: word)
    ensures Add(p, q) == Add(q, p)
  {
  }

  /** Wrapping sums of four words do not depend on the order. */
  lemma AddReverse(p: word, q: word, r: word, t: word)
    ensures Add(Add(Add(p, q), r), t) == Add(Add(Add(t, r), q), p)
  {
    hide Add;
    AddAssoc(Add(t, r), q, p);
    AddAssoc(t, r, Add(q, p));
    AddComm(p, q);
    AddComm(Add(p, q), r);
    AddComm(Add(Add(p, q), r), t);
  }

  /** The word whose big-endian bytes are b0, b1, b2, b3. */
  function BE32(b0: byte, b1: byte, b2: byte, b3: byte): word {
    b0 * 0x100_0000 + b1 * 0x1_0000 + b2 * 0x100 + b3
  }

  lemma DivTwice(x: nat)
    ensures x / 0x1_0000 == x / 0x100 / 0x100
    ensures x / 0x100_0000 == x / 0x100 / 0x100 / 0x100
  {
  }

  /** A 32-bit value is the word of its four bytes. */
  lemma WordSplit(x: word)
    ensures x / 0x100_0000 < 256
    ensures BE32(x / 0x100_0000 % 256, x / 0x1_0000 % 256, x / 0x100 % 256, x % 256) == x
  {
    DivTwice(x);
    var a := x / 0x100;
    var b := a / 0x100;
    assert x == a * 256 + x % 256;
    assert a == b * 256 + a % 256;
    assert b == b / 0x100 * 256 + b % 256;
  }

  lemma BytesOf(b0: byte, b1: byte, b2: byte, b3: byte)
    ensures
      var w := BE32(b0, b1, b2, b3);
      w / 0x100_0000 == b0 && w / 0x1_0000 % 256 == b1 && w / 0x100 % 256 == b2 && w % 256 == b3
  {
    var w := BE32(b0, b1, b2, b3);
    assert w / 0x100 == b0 * 0x1_0000 + b1 * 0x100 + b2;
    assert w / 0x1_0000 == b0 * 0x100 + b1;
  }

  /** The bytes of a word in the opposite order. */
  function ByteSwap(w: word): word {
    w % 256 * 0x100_0000 + w / 0x100 % 256 * 0x1_0000 + w / 0x1_0000 % 256 * 0x100 + w / 0x100_0000
  }

  lemma SwapBytes(b0: byte, b1: byte, b2: byte, b3: byte)
    ensures ByteSwap(BE32(b0, b1, b2, b3)) == BE32(b3, b2, b1, b0)
  {
    BytesOf(b0, b1, b2, b3);
  }

  function WordBytes(w: word): (bs: seq<byte>)
    ensures |bs| == 4
  {
    [w / 0x100_0000, w / 0x1_0000 % 256, w / 0x100 % 256, w % 256]
  }

  /** A byte string read as big-endian words. */
  function ToWords(bs: seq<byte>): (ws: seq<word>)
    requires |bs| % 4 == 0
    ensures |ws| == |bs| / 4
    ensures forall i :: 0 <= i < |ws| ==> ws[i] == BE32(bs[4*i], bs[4*i+1], bs[4*i+2], bs[4*i+3])
  {
    seq(|bs| / 4, i requires 0 <= i < |bs| / 4 => BE32(bs[4*i], bs[4*i+1], bs[4*i+2], bs[4*i+3]))
  }

  /** Words written out as big-endian bytes. */
  function FromWords(ws: seq<word>): (bs: seq<byte>)
    ensures |bs| == 4 * |ws|
  {
    if |ws| == 0 then [] else FromWords(ws[..|ws|-1]) + WordBytes(ws[|ws|-1])
  }

  function Zeros(n: nat): (bs: seq<byte>)
    ensures |bs| == n
    ensures forall i :: 0 <= i < n ==> bs[i] == 0
  {
    seq(n, i => 0)
  }

  /** A byte string read as a big-endian number. */
  function BEVal(s: seq<byte>): nat {
    if |s| == 0 then 0 else BEVal(s[..|s|-1]) * 256 + s[|s|-1]
  }

  /** The first byte in which two strings of one length differ decides their order as numbers. */
  lemma {:induction false} BEValFirstDifference(a: seq<byte>, b: seq<byte>, i: nat)
    requires |a| == |b| && i < |a|
    requires a[..i] == b[..i] && a[i] < b[i]
    ensures BEVal(a) < BEVal(b)
    decreases |a|
  {
    var n := |a| - 1;
    if i < n {
      assert a[..n][..i] == a[..i] && b[..n][..i] == b[..i];
      BEValFirstDifference(a[..n], b[..n], i);
    }
  }

  function Pow256(n: nat): (p: nat)
    ensures p > 0
  {
    if n == 0 then 1 else 256 * Pow256(n - 1)
  }

  lemma Powers256()
    ensures Pow256(0) == 1 && Pow256(1) == 0x100 && Pow256(2) == 0x1_0000 && Pow256(3) == 0x100_0000
    ensures Pow256(4) == 0x1_0000_0000 && Pow256(5) == 0x100_0000_0000
    ensures Pow256(6) == 0x1_0000_0000_0000 && Pow256(7) == 0x100_0000_0000_0000
    ensures Pow256(8) == 0x1_0000_0000_0000_0000
  {
  }

  lemma {:induction false} BEValConcat(a: seq<byte>, b: seq<byte>)
    ensures BEVal(a + b) == BEVal(a) * Pow256(|b|) + BEVal(b)
    decreases |b|
  {
    if |b| == 0 {
      assert a + b == a;
      assert BEVal(a) * 1 == BEVal(a);
    } else {
      var b', x := b[..|b|-1], b[|b|-1];
      assert (a + b)[..|a + b| - 1] == a + b';
      BEValConcat(a, b');
      assert BEVal(a) * Pow256(|b|) == BEVal(a) * Pow256(|b'|) * 256 by {
        MulAssoc(BEVal(a), Pow256(|b'|), 256);
      }
    }
  }

  /** Four bytes read as a number are read as a word. */
  lemma BEValOfWord(b0: byte, b1: byte, b2: byte, b3: byte)
    ensures BEVal([b0, b1, b2, b3]) == BE32(b0, b1, b2, b3)
  {
    var s := [b0, b1, b2, b3];
    assert s[..3][..2] == s[..2] && s[..2][..1] == s[..1] && s[..1][..0] == [] && BEVal([]) == 0;
    assert BEVal(s[..1]) == b0 && BEVal(s[..2]) == b0 * 0x100 + b1;
    assert BEVal(s[..3]) == (b0 * 0x100 + b1) * 0x100 + b2;
  }

  /** The n low bytes of x, lowest first. */
  function LE(x: nat, n: nat): (bs: seq<byte>)
    ensures |bs| == n
    decreases n
  {
    if n == 0 then [] else [x % 256] + LE(x / 256, n - 1)
  }

  /** A byte string read as a little-endian number. */
  function LEVal(bs: seq<byte>): nat {
    if |bs| == 0 then 0 else bs[0] + 256 * LEVal(bs[1..])
  }

  lemma {:induction false} LERoundTrip(x: nat, n: nat)
    requires x < Pow256(n)
    ensures LEVal(LE(x, n)) == x
    decreases n
  {
    if n > 0 {
      LERoundTrip(x / 256, n - 1);
      assert LE(x, n)[1..] == LE(x / 256, n - 1);
    }
  }
}
