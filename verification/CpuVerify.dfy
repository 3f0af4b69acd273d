/** The streaming hasher of src/submit/cpu_verify.cc. */
module CpuVerify {
  import opened Arithmetic
  import opened Words
  import Spec = Sha256Spec

  const K: seq<word> := [
    0x428a2f98, 0x71374491, 0xb5c0fbcf, 0xe9b5dba5, 0x3956c25b, 0x59f111f1, 0x923f82a4, 0xab1c5ed5,
    0xd807aa98, 0x12835b01, 0x243185be, 0x550c7dc3, 0x72be5d74, 0x80deb1fe, 0x9bdc06a7, 0xc19bf174,
    0xe49b69c1, 0xefbe4786, 0x0fc19dc6, 0x240ca1cc, 0x2de92c6f, 0x4a7484aa, 0x5cb0a9dc, 0x76f988da,
    0x983e5152, 0xa831c66d, 0xb00327c8, 0xbf597fc7, 0xc6e00bf3, 0xd5a79147, 0x06ca6351, 0x14292967,
    0x27b70a85, 0x2e1b2138, 0x4d2c6dfc, 0x53380d13, 0x650a7354, 0x766a0abb, 0x81c2c92e, 0x92722c85,
    0xa2bfe8a1, 0xa81a664b, 0xc24b8b70, 0xc76c51a3, 0xd192e819, 0xd6990624, 0xf40e3585, 0x106aa070,
    0x19a4c116, 0x1e376c08, 0x2748774c, 0x34b0bcb5, 0x391c0cb3, 0x4ed8aa4a, 0x5b9cca4f, 0x682e6ff3,
    0x748f82ee, 0x78a5636f, 0x84c87814, 0x8cc70208, 0x90befffa, 0xa4506ceb, 0xbef9a3f7, 0xc67178f2
  ]

  /** The length field the code writes: the byte for bits 40 to 47 is skipped and the top byte is always 0. */
  function LengthField(bitlen: nat): (f: seq<byte>)
    requires bitlen < UINT64
    ensures |f| == 8
  {
    [0, bitlen / 0x100_0000_0000_0000 % 256, bitlen / 0x1_0000_0000_0000 % 256, bitlen / 0x1_0000_0000 % 256,
     bitlen / 0x100_0000 % 256, bitlen / 0x1_0000 % 256, bitlen / 0x100 % 256, bitlen % 256]
  }

  /** The 64-bit bit counter after n bytes. */
  function BitCount(n: nat): (bits: nat)
    ensures bits < UINT64
  {
    8 * n % UINT64
  }

  lemma BitCountStep(n: nat, d: nat)
    ensures (BitCount(n) + 8 * d) % UINT64 == BitCount(n + d)
  {
    ModAdd(8 * n, 8 * d, UINT64);
  }

  /** The bytes the code feeds to the compression function for a message. */
  function Pad(message: seq<byte>): (p: seq<byte>)
    ensures |p| % 64 == 0
  {
    Spec.PadWith(message, LengthField(BitCount(|message|)))
  }

  /** The digest the code computes. */
  function Digest(message: seq<byte>): (digest: seq<byte>)
    ensures |digest| == 32
  {
    FromWords(Spec.HashBlocks(Spec.IV, Pad(message)))
  }

  lemma TableIsFips()
    ensures |K| == 64 && K == Spec.K
  {
  }

  /** The schedule recurrence in the order the code adds its terms. */
  lemma ExpandStep(block: seq<word>, t: nat)
    requires |block| == 16 && 16 <= t
    ensures
      var w15, w2 := Spec.W(block, t - 15), Spec.W(block, t - 2);
      var s0 := Xor(Xor(Rotr(w15, 7), Rotr(w15, 18)), Shr(w15, 3));
      var s1 := Xor(Xor(Rotr(w2, 17), Rotr(w2, 19)), Shr(w2, 10));
      Spec.W(block, t) == Add(Add(Add(Spec.W(block, t - 16), s0), Spec.W(block, t - 7)), s1)
  {
    hide Xor, Rotr, Shr, Add;
    AddReverse(Spec.SmallSigma1(Spec.W(block, t - 2)), Spec.W(block, t - 7),
      Spec.SmallSigma0(Spec.W(block, t - 15)), Spec.W(block, t - 16));
  }

  /** One iteration of the round loop, in the order the code adds its terms. */
  lemma RoundStep(v: Spec.Vars, k: word, w: word)
    ensures
      var S1 := Xor(Xor(Rotr(v.e, 6), Rotr(v.e, 11)), Rotr(v.e, 25));
      var ch := Xor(And(v.e, v.f), And(Not(v.e), v.g));
      var temp1 := Add(Add(Add(Add(v.h, S1), ch), k), w);
      var S0 := Xor(Xor(Rotr(v.a, 2), Rotr(v.a, 13)), Rotr(v.a, 22));
      var maj := Xor(Xor(And(v.a, v.b), And(v.a, v.c)), And(v.b, v.c));
      var temp2 := Add(S0, maj);
      Spec.Round(v, k, w) == Spec.Vars(Add(temp1, temp2), v.a, v.b, v.c, Add(v.d, temp1), v.e, v.f, v.g)
  {
    hide Xor, And, Not, Rotr, Add;
  }

  method Schedule(block: seq<byte>) returns (m: array<word>)
    requires |block| == 64
    ensures fresh(m) && m[..] == Spec.Schedule(ToWords(block))
  {
    hide Xor, Rotr, Shr, Add, BE32, Spec.W;
    ghost var words := ToWords(block);
    m := new word[64];
    var i, j := 0, 0;
    while i < 16
      invariant 0 <= i <= 16 && j == 4 * i
      invariant forall t :: 0 <= t < i ==> m[t] == words[t]
    {
      m[i] := BE32(block[j], block[j+1], block[j+2], block[j+3]);
      i, j := i + 1, j + 4;
    }
    Spec.WStart(words);
    i := 16;
    while i < 64
      invariant 16 <= i <= 64
      invariant forall t :: 0 <= t < i ==> m[t] == Spec.W(words, t)
    {
      ExpandStep(words, i);
      var s0 := Xor(Xor(Rotr(m[i-15], 7), Rotr(m[i-15], 18)), Shr(m[i-15], 3));
      var s1 := Xor(Xor(Rotr(m[i-2], 17), Rotr(m[i-2], 19)), Shr(m[i-2], 10));
      m[i] := Add(Add(Add(m[i-16], s0), m[i-7]), s1);
      i := i + 1;
    }
  }

  /** sha256_transform, on the eight state words and a 64-byte block. */
  method Transform(state: array<word>, block: seq<byte>)
    requires state.Length == 8 && |block| == 64
    modifies state
    ensures state[..] == Spec.CompressBytes(old(state[..]), block)
  {
    hide Xor, Rotr, And, Not, Add, Spec.Round, Spec.Rounds, Spec.Schedule;
    ghost var start := Spec.FromState(state[..]);
    var m := Schedule(block);
    ghost var ws := m[..];
    TableIsFips();
    var a, b, c, d := state[0], state[1], state[2], state[3];
    var e, f, g, h := state[4], state[5], state[6], state[7];
    assert Spec.Vars(a, b, c, d, e, f, g, h) == Spec.Rounds(start, ws[..0]) by { Spec.RoundsNone(start, ws); }
    for i := 0 to 64
      invariant m[..] == ws && state[..] == old(state[..])
      invariant Spec.Vars(a, b, c, d, e, f, g, h) == Spec.Rounds(start, ws[..i])
    {
      RoundStep(Spec.Vars(a, b, c, d, e, f, g, h), K[i], m[i]);
      Spec.RoundsStep(start, ws, i);
      var S1 := Xor(Xor(Rotr(e, 6), Rotr(e, 11)), Rotr(e, 25));
      var ch := Xor(And(e, f), And(Not(e), g));
      var temp1 := Add(Add(Add(Add(h, S1), ch), K[i]), m[i]);
      var S0 := Xor(Xor(Rotr(a, 2), Rotr(a, 13)), Rotr(a, 22));
      var maj := Xor(Xor(And(a, b), And(a, c)), And(b, c));
      var temp2 := Add(S0, maj);
      h := g;
      g := f;
      f := e;
      e := Add(d, temp1);
      d := c;
      c := b;
      b := a;
      a := Add(temp1, temp2);
    }
    assert ws[..64] == ws;
    state[0] := Add(state[0], a);
    state[1] := Add(state[1], b);
    state[2] := Add(state[2], c);
    state[3] := Add(state[3], d);
    state[4] := Add(state[4], e);
    state[5] := Add(state[5], f);
    state[6] := Add(state[6], g);
    state[7] := Add(state[7], h);
  }

  /** The digest of a message cut after its last whole block. */
  lemma DigestSplit(full: seq<byte>, tail: seq<byte>)
    requires |full| % 64 == 0 && |tail| < 64
    ensures
      var start, field := Spec.HashBlocks(Spec.IV, full), LengthField(BitCount(|full + tail|));
      Digest(full + tail) == FromWords(
        if |tail| < 56 then Spec.CompressBytes(start, Spec.OnlyBlock(tail, field))
        else Spec.CompressBytes(Spec.CompressBytes(start, Spec.TailBlock(tail)), Spec.LengthBlock(field)))
  {
    hide Spec.CompressBytes, Spec.HashBlocks, Spec.PadWith, FromWords, BitCount, LengthField;
    var field := LengthField(BitCount(|full + tail|));
    Spec.HashPaddedSplit(Spec.IV, full, tail, field);
    Spec.HashPaddedTail(Spec.HashBlocks(Spec.IV, full), tail, field);
  }

  /** Overwrites the last eight bytes of a block with the length field, as both CPU hashers do. */
  method WriteLength(block: array<byte>, bitlen: nat)
    requires block.Length == 64 && bitlen < UINT64
    modifies block
    ensures block[..] == old(block[..56]) + LengthField(bitlen)
  {
    block[63] := bitlen % 256;
    block[62] := bitlen / 0x100 % 256;
    block[61] := bitlen / 0x1_0000 % 256;
    block[60] := bitlen / 0x100_0000 % 256;
    block[59] := bitlen / 0x1_0000_0000 % 256;
    block[58] := bitlen / 0x1_0000_0000_0000 % 256;
    block[57] := bitlen / 0x100_0000_0000_0000 % 256;
    block[56] := 0;
    assert block[56..] == LengthField(bitlen);
    hide LengthField;
    assert block[..] == block[..56] + block[56..];
  }

  /** Writes eight state words big-endian into the caller's 32-byte buffer. */
  method WriteDigest(state: array<word>, hash: array<byte>)
    requires state.Length == 8 && hash.Length == 32 && state as object != hash
    modifies hash
    ensures hash[..] == FromWords(state[..])
  {
    for j := 0 to 8
      modifies hash
      invariant hash[..4*j] == FromWords(state[..j])
    {
      ghost var before := hash[..4*j];
      hash[4*j] := state[j] / 0x100_0000;
      hash[4*j+1] := state[j] / 0x1_0000 % 256;
      hash[4*j+2] := state[j] / 0x100 % 256;
      hash[4*j+3] := state[j] % 256;
      assert hash[..4*j] == before;
      assert state[..j+1][..j] == state[..j];
      assert hash[..4*(j+1)] == before + WordBytes(state[j]);
    }
    assert state[..8] == state[..] && hash[..32] == hash[..];
  }

  /** The initial hash value, as sha256_init and init set it. */
  method SetInitialState(state: array<word>)
    requires state.Length == 8
    modifies state
    ensures state[..] == Spec.IV
  {
    state[0], state[1], state[2], state[3] := 0x6a09e667, 0xbb67ae85, 0x3c6ef372, 0xa54ff53a;
    state[4], state[5], state[6], state[7] := 0x510e527f, 0x9b05688c, 0x1f83d9ab, 0x5be0cd19;
  }

  class Sha256Ctx {
    var bitlen: nat
    const state: array<word>
    const data: array<byte>
    var datalen: nat
    /** The whole blocks compressed so far. */
    ghost var hashed: seq<byte>

    ghost predicate Valid()
      reads this, state, data
    {
      && state.Length == 8 && data.Length == 64 && state as object != data
      && datalen < 64 && |hashed| % 64 == 0
      && bitlen == BitCount(|hashed|)
      && state[..] == Spec.HashBlocks(Spec.IV, hashed)
    }

    /** Every byte passed to Update so far. */
    ghost function Absorbed(): seq<byte>
      requires Valid()
      reads this, state, data
    {
      hashed + data[..datalen]
    }

    /** sha256_init. */
    constructor ()
      ensures Valid() && Absorbed() == []
      ensures fresh(state) && fresh(data)
    {
      hide Spec.CompressBytes;
      bitlen, datalen, hashed := 0, 0, [];
      state := new word[8];
      data := new byte[64];
      new;
      SetInitialState(state);
    }

    /** sha256_update: any way of cutting the message into calls absorbs the same bytes. */
    method Update(input: seq<byte>)
      requires Valid()
      modifies this, state, data
      ensures Valid() && Absorbed() == old(Absorbed()) + input
    {
      hide Spec.CompressBytes, Spec.HashBlocks, BitCount;
      for i := 0 to |input|
        invariant Valid() && Absorbed() == old(Absorbed()) + input[..i]
      {
        ghost var before := Absorbed();
        AbsorbByte(input[i]);
        assert input[..i+1] == input[..i] + [input[i]];
        assert before + [input[i]] == old(Absorbed()) + input[..i+1];
      }
      assert input[..|input|] == input;
    }

    /** One turn of the loop: a full buffer is compressed. */
    method AbsorbByte(b: byte)
      requires Valid()
      modifies this, state, data
      ensures Valid() && Absorbed() == old(Absorbed()) + [b]
    {
      hide Spec.CompressBytes, Spec.HashBlocks, BitCount;
      ghost var before := data[..datalen];
      data[datalen] := b;
      datalen := datalen + 1;
      assert data[..datalen] == before + [b];
      assert hashed + data[..datalen] == (hashed + before) + [b];
      if datalen == 64 {
        assert data[..64] == data[..];
        Spec.HashAppendBlock(Spec.IV, hashed, data[..]);
        BitCountStep(|hashed|, 64);
        Transform(state, data[..]);
        bitlen := (bitlen + 512) % UINT64;
        datalen := 0;
        hashed := hashed + data[..];
      }
    }

    /** The first bit of the padding and zero bytes up to the limit. */
    method PadTo(limit: nat)
      requires state.Length == 8 && data.Length == 64 && state as object != data && datalen < limit <= 64
      modifies data
      ensures data[..limit] == old(data[..datalen]) + [0x80] + Zeros(limit - datalen - 1)
    {
      ghost var tail := data[..datalen];
      var i := datalen;
      data[i] := 0x80;
      i := i + 1;
      while i < limit
        invariant datalen < i <= limit
        invariant data[..i] == tail + [0x80] + Zeros(i - datalen - 1)
      {
        data[i] := 0;
        i := i + 1;
      }
    }

    /** sha256_final. */
    method Final(hash: array<byte>)
      requires Valid()
      requires hash.Length == 32 && hash as object != state && hash != data
      modifies this, state, data, hash
      ensures hash[..] == Digest(old(Absorbed()))
    {
      hide Spec.CompressBytes, Spec.HashBlocks, FromWords, BitCount, LengthField, Digest;
      ghost var full, tail := hashed, data[..datalen];
      ghost var start := Spec.HashBlocks(Spec.IV, full);
      BitCountStep(|full|, datalen);
      ghost var n := datalen;
      if datalen < 56 {
        PadTo(56);
      } else {
        PadTo(64);
        assert data[..64] == data[..] && data[..] == Spec.TailBlock(tail);
        Transform(state, data[..]);
        for k := 0 to 56
          invariant data[..k] == Zeros(k)
          modifies data
        {
          data[k] := 0;
        }
      }
      ghost var head := data[..56];
      bitlen := (bitlen + datalen * 8) % UINT64;
      assert bitlen == BitCount(|full + tail|);
      assert state[..] == if n < 56 then start else Spec.CompressBytes(start, Spec.TailBlock(tail));
      WriteLength(data, bitlen);
      ghost var field := LengthField(bitlen);
      assert data[..] == if n < 56 then Spec.OnlyBlock(tail, field) else Spec.LengthBlock(field);
      Transform(state, data[..]);
      DigestSplit(full, tail);
      assert old(Absorbed()) == full + tail;
      WriteDigest(state, hash);
    }
  }

  method Sha256(message: seq<byte>, hash: array<byte>)
    requires hash.Length == 32
    modifies hash
    ensures hash[..] == Digest(message)
    ensures 8 * |message| < 0x100_0000_0000 ==> hash[..] == Spec.Sha256(message)
  {
    hide Spec.Sha256, Digest;
    var ctx := new Sha256Ctx();
    ctx.Update(message);
    assert ctx.Absorbed() == message;
    ctx.Final(hash);
    if 8 * |message| < 0x100_0000_0000 {
      DigestIsFips(message);
    }
  }

  method Sha256d(message: seq<byte>, hash: array<byte>)
    requires hash.Length == 32
    modifies hash
    ensures hash[..] == Digest(Digest(message))
  {
    hide Spec.Sha256, Digest;
    var tmp := new byte[32];
    Sha256(message, tmp);
    Sha256(tmp[..], hash);
  }

  lemma BEValOfEight(f: seq<byte>)
    requires |f| == 8
    ensures BEVal(f) == BE32(f[0], f[1], f[2], f[3]) * 0x1_0000_0000 + BE32(f[4], f[5], f[6], f[7])
  {
    Powers256();
    BEValConcat(f[..4], f[4..]);
    assert f == f[..4] + f[4..];
    assert f[..4] == [f[0], f[1], f[2], f[3]] && f[4..] == [f[4], f[5], f[6], f[7]];
    hide BEVal, BE32;
    BEValOfWord(f[0], f[1], f[2], f[3]);
    BEValOfWord(f[4], f[5], f[6], f[7]);
  }

  /** The bytes of a 64-bit number are those of its upper and of its lower word. */
  lemma UpperBytes(x: word64)
    ensures
      var hi := x / 0x1_0000_0000;
      && x / 0x100_0000_0000_0000 % 256 == hi / 0x100_0000 && x / 0x1_0000_0000_0000 % 256 == hi / 0x1_0000 % 256
      && x / 0x100_0000_0000 % 256 == hi / 0x100 % 256 && hi / 0x100_0000 < 256
  {
    DivDiv(x, 0x1_0000_0000, 0x100_0000);
    DivDiv(x, 0x1_0000_0000, 0x1_0000);
    DivDiv(x, 0x1_0000_0000, 0x100);
  }

  lemma LowerBytes(x: word64)
    ensures
      var lo := x % 0x1_0000_0000;
      && x / 0x100_0000 % 256 == lo / 0x100_0000 && x / 0x1_0000 % 256 == lo / 0x1_0000 % 256
      && x / 0x100 % 256 == lo / 0x100 % 256 && x % 256 == lo % 256
  {
    LowDigit(x, 0x100_0000, 1);
    LowDigit(x, 0x1_0000, 0x100);
    LowDigit(x, 0x100, 0x1_0000);
    LowDigit(x, 1, 0x100_0000);
  }

  lemma LowDigit(x: nat, p: nat, q: nat)
    requires p > 0 && q > 0 && p * (q * 256) == 0x1_0000_0000
    ensures x / p % 256 == x % 0x1_0000_0000 / p % 256
  {
    var h, l := x / 0x1_0000_0000, x % 0x1_0000_0000;
    DivMod(l, p);
    MulAssoc(h, q * 256, p);
    MulDistribute(h * (q * 256), l / p, p);
    ModUnique(x, p, h * (q * 256) + l / p, l % p);
    MulAssoc(h, q, 256);
    DivMod(l / p, 256);
    MulDistribute(h * q, l / p / 256, 256);
    ModUnique(x / p, 256, h * q + l / p / 256, l / p % 256);
  }

  lemma FieldBytes(bits: word64)
    ensures
      var hi, lo := bits / 0x1_0000_0000, bits % 0x1_0000_0000;
      var low := [lo / 0x100_0000, lo / 0x1_0000 % 256, lo / 0x100 % 256, lo % 256];
      && Spec.LengthField(bits) == [hi / 0x100_0000, hi / 0x1_0000 % 256, hi / 0x100 % 256, hi % 256] + low
      && LengthField(bits) == [0, hi / 0x100_0000, hi / 0x1_0000 % 256, hi % 256] + low
  {
    UpperBytes(bits);
    LowerBytes(bits);
  }

  lemma SplitWord(w: word)
    ensures BE32(w / 0x100_0000, w / 0x1_0000 % 256, w / 0x100 % 256, w % 256) == w
  {
    WordSplit(w);
    assert w / 0x100_0000 % 256 == w / 0x100_0000;
  }

  lemma FieldNumbers(bits: word64)
    ensures
      var hi, lo := bits / 0x1_0000_0000, bits % 0x1_0000_0000;
      && BEVal(Spec.LengthField(bits)) == hi * 0x1_0000_0000 + lo
      && BEVal(LengthField(bits)) ==
         BE32(0, hi / 0x100_0000, hi / 0x1_0000 % 256, hi % 256) * 0x1_0000_0000 + lo
  {
    FieldBytes(bits);
    hide BEVal, BE32, LengthField, Spec.LengthField;
    BEValOfEight(Spec.LengthField(bits));
    BEValOfEight(LengthField(bits));
    SplitWord(bits / 0x1_0000_0000);
    SplitWord(bits % 0x1_0000_0000);
  }

  /** The number in the field of section 5.1.1 is the bit length; the code drops bits 40 to 47 and closes the gap. */
  lemma LengthFieldIs(bits: nat)
    requires bits < UINT64
    ensures BEVal(Spec.LengthField(bits)) == bits
    ensures BEVal(LengthField(bits)) == bits / 0x1_0000_0000_0000 * 0x100_0000_0000 + bits % 0x100_0000_0000
  {
    FieldNumbers(bits);
    hide BEVal, BE32, LengthField, Spec.LengthField;
    Gap(bits / 0x1_0000_0000, bits % 0x1_0000_0000);
    DivDiv(bits, 0x1_0000_0000, 0x1_0000);
  }

  /** The upper word as the code writes it. */
  lemma Gap(hi: word, lo: word)
    ensures
      var x := hi * 0x1_0000_0000 + lo;
      BE32(0, hi / 0x100_0000, hi / 0x1_0000 % 256, hi % 256) * 0x1_0000_0000 + lo ==
      hi / 0x1_0000 * 0x100_0000_0000 + x % 0x100_0000_0000
  {
    var x, q := hi * 0x1_0000_0000 + lo, hi / 0x100;
    DivDiv(hi, 0x100, 0x100);
    DivDiv(hi, 0x1_0000, 0x100);
    ModUnique(x, 0x100_0000_0000, q, hi % 0x100 * 0x1_0000_0000 + lo);
  }

  /** The code writes the length field of section 5.1.1 of FIPS 180-4 exactly when the bit length fits in 40 bits. */
  lemma LengthFieldExact(bits: nat)
    requires bits < UINT64
    ensures LengthField(bits) == Spec.LengthField(bits) <==> bits < 0x100_0000_0000
  {
    var code, fips := LengthField(bits), Spec.LengthField(bits);
    assert code == fips ==> code[0] == fips[0] && code[1] == fips[1] && code[2] == fips[2];
  }

  /** Over every message FIPS 180-4 defines a padding for, the code pads as it says exactly below 2^40 bits. */
  lemma PadExact(message: seq<byte>)
    requires 8 * |message| < UINT64
    ensures Pad(message) == Spec.Pad(message) <==> 8 * |message| < 0x100_0000_0000
  {
    hide LengthField, Spec.LengthField;
    var body := message + [0x80] + Zeros(Spec.ZeroCount(|message|));
    var code, fips := LengthField(BitCount(|message|)), Spec.LengthField(8 * |message|);
    assert Pad(message) == body + code && Spec.Pad(message) == body + fips;
    assert (body + code)[|body|..] == code && (body + fips)[|body|..] == fips;
    LengthFieldExact(8 * |message|);
  }

  /** So the digest is the FIPS digest for every message of fewer than 2^40 bits. */
  lemma DigestIsFips(message: seq<byte>)
    requires 8 * |message| < 0x100_0000_0000
    ensures Digest(message) == Spec.Sha256(message)
  {
    hide Spec.HashBlocks, FromWords, Pad, Spec.Pad;
    PadExact(message);
  }
}
