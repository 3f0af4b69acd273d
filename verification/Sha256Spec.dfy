/** SHA-256 as sections 4, 5 and 6.2 of FIPS 180-4 state it: pad, parse into blocks, fold the compression function. */
module Sha256Spec {
  import opened Words

  /** Section 4.2.2. */
  const K: seq<word> := [
    0x428a2f98, 0x71374491, 0xb5c0fbcf, 0xe9b5dba5, 0x3956c25b, 0x59f111f1, 0x923f82a4, 0xab1c5ed5,
    0xd807aa98, 0x12835b01, 0x243185be, 0x550c7dc3, 0x72be5d74, 0x80deb1fe, 0x9bdc06a7, 0xc19bf174,
    0xe49b69c1, 0xefbe4786, 0x0fc19dc6, 0x240ca1cc, 0x2de92c6f, 0x4a7484aa, 0x5cb0a9dc, 0x76f988da,
    0x983e5152, 0xa831c66d, 0xb00327c8, 0xbf597fc7, 0xc6e00bf3, 0xd5a79147, 0x06ca6351, 0x14292967,
    0x27b70a85, 0x2e1b2138, 0x4d2c6dfc, 0x53380d13, 0x650a7354, 0x766a0abb, 0x81c2c92e, 0x92722c85,
    0xa2bfe8a1, 0xa81a664b, 0xc24b8b70, 0xc76c51a3, 0xd192e819, 0xd6990624, 0xf40e3585, 0x106aa070,
    0x19a4c116, 0x1e376c08, 0x2748774c, 0x34b0bcb5, 0x391c0cb3, 0x4ed8aa4a, 0x5b9cca4f, 0x682e6ff3,
    0x748f82ee, 0x78a5636f, 0x84c87814, 0x8cc70208, 0x90befffa, 0xa4506ceb, 0xbef9a3f7, 0xc67178f2
  ]

  /** Section 5.3.3. */
  const IV: seq<word> := [
    0x6a09e667, 0xbb67ae85, 0x3c6ef372, 0xa54ff53a, 0x510e527f, 0x9b05688c, 0x1f83d9ab, 0x5be0cd19
  ]

  /** Section 4.1.2. */
  function Ch(x: word, y: word, z: word): word { Xor(And(x, y), And(Not(x), z)) }

  function Maj(x: word, y: word, z: word): word { Xor(Xor(And(x, y), And(x, z)), And(y, z)) }

  function BigSigma0(x: word): word { Xor(Xor(Rotr(x, 2), Rotr(x, 13)), Rotr(x, 22)) }

  function BigSigma1(x: word): word { Xor(Xor(Rotr(x, 6), Rotr(x, 11)), Rotr(x, 25)) }

  function SmallSigma0(x: word): word { Xor(Xor(Rotr(x, 7), Rotr(x, 18)), Shr(x, 3)) }

  function SmallSigma1(x: word): word { Xor(Xor(Rotr(x, 17), Rotr(x, 19)), Shr(x, 10)) }

  /** The eight working variables of section 6.2.2. */
  datatype Vars = Vars(a: word, b: word, c: word, d: word, e: word, f: word, g: word, h: word)

  function FromState(s: seq<word>): Vars
    requires |s| == 8
  {
    Vars(s[0], s[1], s[2], s[3], s[4], s[5], s[6], s[7])
  }

  /** The message schedule W_t of a sixteen-word block. */
  function W(block: seq<word>, t: nat): word
    requires |block| == 16
  {
    if t < 16 then block[t]
    else Add(Add(Add(SmallSigma1(W(block, t - 2)), W(block, t - 7)), SmallSigma0(W(block, t - 15))), W(block, t - 16))
  }

  lemma WStart(block: seq<word>)
    requires |block| == 16
    ensures forall t :: 0 <= t < 16 ==> W(block, t) == block[t]
  {
  }

  function Round(v: Vars, k: word, w: word): Vars {
    var t1 := Add(Add(Add(Add(v.h, BigSigma1(v.e)), Ch(v.e, v.f, v.g)), k), w);
    var t2 := Add(BigSigma0(v.a), Maj(v.a, v.b, v.c));
    Vars(Add(t1, t2), v.a, v.b, v.c, Add(v.d, t1), v.e, v.f, v.g)
  }

  function Schedule(block: seq<word>): (ws: seq<word>)
    requires |block| == 16
    ensures |ws| == 64
  {
    seq(64, t requires 0 <= t < 64 => W(block, t))
  }

  /** The working variables after one round for each scheduled word. */
  function Rounds(v: Vars, ws: seq<word>): Vars
    requires |ws| <= 64
  {
    if |ws| == 0 then v else Round(Rounds(v, ws[..|ws|-1]), K[|ws|-1], ws[|ws|-1])
  }

  lemma RoundsNone(v: Vars, ws: seq<word>)
    ensures Rounds(v, ws[..0]) == v
  {
  }

  lemma RoundsStep(v: Vars, ws: seq<word>, i: nat)
    requires i < |ws| <= 64
    ensures Rounds(v, ws[..i+1]) == Round(Rounds(v, ws[..i]), K[i], ws[i])
  {
    hide Round;
    assert ws[..i+1][..i] == ws[..i];
  }

  function AddVars(s: seq<word>, v: Vars): (r: seq<word>)
    requires |s| == 8
    ensures |r| == 8
  {
    [Add(s[0], v.a), Add(s[1], v.b), Add(s[2], v.c), Add(s[3], v.d),
     Add(s[4], v.e), Add(s[5], v.f), Add(s[6], v.g), Add(s[7], v.h)]
  }

  /** One application of the compression function to a sixteen-word block. */
  function Compress(s: seq<word>, block: seq<word>): (r: seq<word>)
    requires |s| == 8 && |block| == 16
    ensures |r| == 8
  {
    AddVars(s, Rounds(FromState(s), Schedule(block)))
  }

  /** Compression of a block given as 64 bytes. */
  function CompressBytes(s: seq<word>, block: seq<byte>): (r: seq<word>)
    requires |s| == 8 && |block| == 64
    ensures |r| == 8
  {
    Compress(s, ToWords(block))
  }

  /** Folds the compression function over a byte string that is a whole number of blocks. */
  function HashBlocks(s: seq<word>, bytes: seq<byte>): (r: seq<word>)
    requires |s| == 8 && |bytes| % 64 == 0
    ensures |r| == 8
    decreases |bytes|
  {
    if |bytes| == 0 then s
    else
      assert |bytes[64..]| % 64 == 0;
      HashBlocks(CompressBytes(s, bytes[..64]), bytes[64..])
  }

  /** The 64-bit big-endian length field of section 5.1.1. */
  function LengthField(bits: nat): (f: seq<byte>)
    requires bits < UINT64
    ensures |f| == 8
  {
    [bits / 0x100_0000_0000_0000 % 256, bits / 0x1_0000_0000_0000 % 256, bits / 0x100_0000_0000 % 256,
     bits / 0x1_0000_0000 % 256, bits / 0x100_0000 % 256, bits / 0x1_0000 % 256, bits / 0x100 % 256, bits % 256]
  }

  /** The number k of zero bytes in section 5.1.1: the least k with n + 1 + k + 8 a multiple of 64. */
  function ZeroCount(n: nat): (k: nat) {
    if n % 64 < 56 then 55 - n % 64 else 119 - n % 64
  }

  lemma ZeroCountIsLeast(n: nat)
    ensures ZeroCount(n) < 64 && (n + 1 + ZeroCount(n) + 8) % 64 == 0
  {
    assert n == n / 64 * 64 + n % 64;
    if n % 64 < 56 {
      assert n + 1 + ZeroCount(n) + 8 == (n / 64 + 1) * 64;
    } else {
      assert n + 1 + ZeroCount(n) + 8 == (n / 64 + 2) * 64;
    }
  }

  /** A message followed by the bit 1, zero bits and a given length field. */
  function PadWith(message: seq<byte>, field: seq<byte>): (p: seq<byte>)
    requires |field| == 8
    ensures |p| % 64 == 0
  {
    ZeroCountIsLeast(|message|);
    message + [0x80] + Zeros(ZeroCount(|message|)) + field
  }

  function Pad(message: seq<byte>): (p: seq<byte>)
    requires 8 * |message| < UINT64
    ensures |p| % 64 == 0
  {
    PadWith(message, LengthField(8 * |message|))
  }

  /** The digest of section 6.2. */
  function Sha256(message: seq<byte>): (digest: seq<byte>)
    requires 8 * |message| < UINT64
    ensures |digest| == 32
  {
    FromWords(HashBlocks(IV, Pad(message)))
  }

  lemma {:induction false} HashBlocksConcat(s: seq<word>, a: seq<byte>, b: seq<byte>)
    requires |s| == 8 && |a| % 64 == 0 && |b| % 64 == 0
    ensures HashBlocks(s, a + b) == HashBlocks(HashBlocks(s, a), b)
    decreases |a|
  {
    hide CompressBytes;
    if |a| == 0 {
      assert a + b == b;
    } else {
      assert (a + b)[..64] == a[..64];
      assert (a + b)[64..] == a[64..] + b;
      HashBlocksConcat(CompressBytes(s, a[..64]), a[64..], b);
    }
  }

  lemma HashNothing(s: seq<word>)
    requires |s| == 8
    ensures HashBlocks(s, []) == s
  {
  }

  lemma HashOneBlock(s: seq<word>, block: seq<byte>)
    requires |s| == 8 && |block| == 64
    ensures HashBlocks(s, block) == CompressBytes(s, block)
  {
    hide CompressBytes;
    assert block[..64] == block && block[64..] == [];
  }

  /** Absorbing one more block applies the compression function once. */
  lemma HashAppendBlock(s: seq<word>, a: seq<byte>, block: seq<byte>)
    requires |s| == 8 && |a| % 64 == 0 && |block| == 64
    ensures HashBlocks(s, a + block) == CompressBytes(HashBlocks(s, a), block)
  {
    hide CompressBytes, HashBlocks;
    HashBlocksConcat(s, a, block);
    HashOneBlock(HashBlocks(s, a), block);
  }

  /** Padding only looks at the part of the message after its last whole block. */
  lemma PadSplit(a: seq<byte>, tail: seq<byte>, field: seq<byte>)
    requires |a| % 64 == 0 && |field| == 8
    ensures PadWith(a + tail, field) == a + PadWith(tail, field)
  {
    assert (|a| + |tail|) % 64 == |tail| % 64;
    assert ZeroCount(|a + tail|) == ZeroCount(|tail|);
    var rest := [0x80] + Zeros(ZeroCount(|tail|)) + field;
    assert PadWith(a + tail, field) == (a + tail) + rest;
    assert PadWith(tail, field) == tail + rest;
  }

  /** The final block when the tail, the 1 bit and the length field fit in one. */
  function OnlyBlock(tail: seq<byte>, field: seq<byte>): (b: seq<byte>)
    requires |tail| < 56 && |field| == 8
    ensures |b| == 64
  {
    tail + [0x80] + Zeros(55 - |tail|) + field
  }

  /** The first of two final blocks. */
  function TailBlock(tail: seq<byte>): (b: seq<byte>)
    requires 56 <= |tail| < 64
    ensures |b| == 64
  {
    tail + [0x80] + Zeros(63 - |tail|)
  }

  /** The second of two final blocks. */
  function LengthBlock(field: seq<byte>): (b: seq<byte>)
    requires |field| == 8
    ensures |b| == 64
  {
    Zeros(56) + field
  }

  /** The padding of a tail shorter than a block takes one block or two. */
  lemma PadTail(tail: seq<byte>, field: seq<byte>)
    requires |tail| < 64 && |field| == 8
    ensures |tail| < 56 ==> PadWith(tail, field) == OnlyBlock(tail, field)
    ensures 56 <= |tail| ==> PadWith(tail, field) == TailBlock(tail) + LengthBlock(field)
  {
    if |tail| < 56 {
      assert ZeroCount(|tail|) == 55 - |tail|;
    } else {
      assert ZeroCount(|tail|) == 119 - |tail|;
      assert Zeros(119 - |tail|) == Zeros(63 - |tail|) + Zeros(56);
    }
  }

  lemma HashPaddedTail(s: seq<word>, tail: seq<byte>, field: seq<byte>)
    requires |s| == 8 && |tail| < 64 && |field| == 8
    ensures |tail| < 56 ==> HashBlocks(s, PadWith(tail, field)) == CompressBytes(s, OnlyBlock(tail, field))
    ensures 56 <= |tail| ==>
      HashBlocks(s, PadWith(tail, field)) == CompressBytes(CompressBytes(s, TailBlock(tail)), LengthBlock(field))
  {
    hide CompressBytes, HashBlocks, PadWith, OnlyBlock, TailBlock, LengthBlock;
    PadTail(tail, field);
    if |tail| < 56 {
      HashOneBlock(s, OnlyBlock(tail, field));
    } else {
      HashOneBlock(s, TailBlock(tail));
      HashAppendBlock(s, TailBlock(tail), LengthBlock(field));
    }
  }

  lemma HashPaddedSplit(s: seq<word>, full: seq<byte>, tail: seq<byte>, field: seq<byte>)
    requires |s| == 8 && |full| % 64 == 0 && |field| == 8
    ensures HashBlocks(s, PadWith(full + tail, field)) == HashBlocks(HashBlocks(s, full), PadWith(tail, field))
  {
    hide CompressBytes, HashBlocks, PadWith;
    PadSplit(full, tail, field);
    HashBlocksConcat(s, full, PadWith(tail, field));
  }
}
