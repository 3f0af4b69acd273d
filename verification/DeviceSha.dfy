/** The fixed-shape hasher of src/cuda/sha256d.cuh and the midstate path of kernel_mine_stub in src/cuda/engine.cu. */
module DeviceSha {
  import opened Words
  import Cpu = CpuVerify
  import Midstate
  import Spec = Sha256Spec

  const SHA256_K: seq<word> := [
    0x428a2f98, 0x71374491, 0xb5c0fbcf, 0xe9b5dba5, 0x3956c25b, 0x59f111f1, 0x923f82a4, 0xab1c5ed5,
    0xd807aa98, 0x12835b01, 0x243185be, 0x550c7dc3, 0x72be5d74, 0x80deb1fe, 0x9bdc06a7, 0xc19bf174,
    0xe49b69c1, 0xefbe4786, 0x0fc19dc6, 0x240ca1cc, 0x2de92c6f, 0x4a7484aa, 0x5cb0a9dc, 0x76f988da,
    0x983e5152, 0xa831c66d, 0xb00327c8, 0xbf597fc7, 0xc6e00bf3, 0xd5a79147, 0x06ca6351, 0x14292967,
    0x27b70a85, 0x2e1b2138, 0x4d2c6dfc, 0x53380d13, 0x650a7354, 0x766a0abb, 0x81c2c92e, 0x92722c85,
    0xa2bfe8a1, 0xa81a664b, 0xc24b8b70, 0xc76c51a3, 0xd192e819, 0xd6990624, 0xf40e3585, 0x106aa070,
    0x19a4c116, 0x1e376c08, 0x2748774c, 0x34b0bcb5, 0x391c0cb3, 0x4ed8aa4a, 0x5b9cca4f, 0x682e6ff3,
    0x748f82ee, 0x78a5636f, 0x84c87814, 0x8cc70208, 0x90befffa, 0xa4506ceb, 0xbef9a3f7, 0xc67178f2
  ]

  const SHA256_IV: seq<word> := [
    0x6a09e667, 0xbb67ae85, 0x3c6ef372, 0xa54ff53a, 0x510e527f, 0x9b05688c, 0x1f83d9ab, 0x5be0cd19
  ]

  function Ch(x: word, y: word, z: word): word { Xor(And(x, y), And(Not(x), z)) }

  function Maj(x: word, y: word, z: word): word { Xor(Xor(And(x, y), And(x, z)), And(y, z)) }

  function BigSig0(x: word): word { Xor(Xor(Rotr(x, 2), Rotr(x, 13)), Rotr(x, 22)) }

  function BigSig1(x: word): word { Xor(Xor(Rotr(x, 6), Rotr(x, 11)), Rotr(x, 25)) }

  function Sig0(x: word): word { Xor(Xor(Rotr(x, 7), Rotr(x, 18)), Shr(x, 3)) }

  function Sig1(x: word): word { Xor(Xor(Rotr(x, 17), Rotr(x, 19)), Shr(x, 10)) }

  lemma TablesAreFips()
    ensures |SHA256_K| == 64 && SHA256_K == Spec.K
    ensures |SHA256_IV| == 8 && SHA256_IV == Spec.IV
  {
  }

  lemma ExpandStep(block: seq<word>, t: nat)
    requires |block| == 16 && 16 <= t
    ensures Spec.W(block, t) ==
      Add(Add(Add(Sig1(Spec.W(block, t - 2)), Spec.W(block, t - 7)), Sig0(Spec.W(block, t - 15))),
        Spec.W(block, t - 16))
  {
    hide Xor, Rotr, Shr, Add;
  }

  lemma RoundStep(v: Spec.Vars, k: word, w: word)
    ensures
      var t1 := Add(Add(Add(Add(v.h, BigSig1(v.e)), Ch(v.e, v.f, v.g)), k), w);
      var t2 := Add(BigSig0(v.a), Maj(v.a, v.b, v.c));
      Spec.Round(v, k, w) == Spec.Vars(Add(t1, t2), v.a, v.b, v.c, Add(v.d, t1), v.e, v.f, v.g)
  {
    hide Xor, And, Not, Rotr, Add;
  }

  method Schedule(block: seq<word>) returns (w: array<word>)
    requires |block| == 16
    ensures fresh(w) && w[..] == Spec.Schedule(block)
  {
    hide Sig0, Sig1, Add, Spec.W;
    w := new word[64];
    for i := 0 to 16
      modifies w
      invariant forall t :: 0 <= t < i ==> w[t] == block[t]
    {
      w[i] := block[i];
    }
    Spec.WStart(block);
    for i := 16 to 64
      modifies w
      invariant forall t :: 0 <= t < i ==> w[t] == Spec.W(block, t)
    {
      ExpandStep(block, i);
      w[i] := Add(Add(Add(Sig1(w[i-2]), w[i-7]), Sig0(w[i-15])), w[i-16]);
    }
  }

  /** sha256_compress: the device round loop computes the compression function of the CPU hashers. */
  method Compress(state: array<word>, block: seq<word>)
    requires state.Length == 8 && |block| == 16
    modifies state
    ensures state[..] == Spec.Compress(old(state[..]), block)
  {
    hide BigSig0, BigSig1, Ch, Maj, Add, Spec.Round, Spec.Rounds, Spec.Schedule;
    var w := Schedule(block);
    ghost var ws := w[..];
    TablesAreFips();
    ghost var start := Spec.FromState(state[..]);
    var a, b, c, d := state[0], state[1], state[2], state[3];
    var e, f, g, h := state[4], state[5], state[6], state[7];
    assert Spec.Vars(a, b, c, d, e, f, g, h) == Spec.Rounds(start, ws[..0]) by { Spec.RoundsNone(start, ws); }
    for i := 0 to 64
      modifies {}
      invariant Spec.Vars(a, b, c, d, e, f, g, h) == Spec.Rounds(start, ws[..i])
    {
      RoundStep(Spec.Vars(a, b, c, d, e, f, g, h), SHA256_K[i], w[i]);
      Spec.RoundsStep(start, ws, i);
      var t1 := Add(Add(Add(Add(h, BigSig1(e)), Ch(e, f, g)), SHA256_K[i]), w[i]);
      var t2 := Add(BigSig0(a), Maj(a, b, c));
      h := g;
      g := f;
      f := e;
      e := Add(d, t1);
      d := c;
      c := b;
      b := a;
      a := Add(t1, t2);
    }
    assert ws[..64] == ws;
    state[0], state[1], state[2], state[3] := Add(state[0], a), Add(state[1], b), Add(state[2], c), Add(state[3], d);
    state[4], state[5], state[6], state[7] := Add(state[4], e), Add(state[5], f), Add(state[6], g), Add(state[7], h);
  }

  /** Loads n big-endian words from consecutive bytes, the loop every device hasher starts with. */
  method LoadWords(bytes: seq<byte>, n: nat, w: array<word>)
    requires |bytes| == 4 * n && n <= w.Length
    modifies w
    ensures w[..n] == ToWords(bytes) && w[n..] == old(w[n..])
  {
    for i := 0 to n
      invariant w[..i] == ToWords(bytes)[..i] && w[n..] == old(w[n..])
    {
      w[i] := BE32(bytes[4*i], bytes[4*i+1], bytes[4*i+2], bytes[4*i+3]);
    }
  }

  /** The word form of a final block: the tail, 0x80000000, zero words and the bit length. */
  function PaddedWords(tail: seq<byte>, bits: word): (ws: seq<word>)
    requires |tail| % 4 == 0 && |tail| <= 52
    ensures |ws| == 16
  {
    ToWords(tail) + [0x80000000] + seq(14 - |tail| / 4, i => 0) + [bits]
  }

  lemma OnlyBlockAt(tail: seq<byte>, field: seq<byte>, k: nat)
    requires |tail| < 56 && |field| == 8 && k < 64
    ensures Spec.OnlyBlock(tail, field)[k] ==
      if k < |tail| then tail[k] else if k == |tail| then 0x80 else if k < 56 then 0 else field[k-56]
  {
  }

  lemma ShortLengthField(bits: word)
    ensures
      var f := Cpu.LengthField(bits);
      BE32(f[0], f[1], f[2], f[3]) == 0 && BE32(f[4], f[5], f[6], f[7]) == bits
  {
    hide BE32;
    assert Cpu.LengthField(bits)[..4] == [0, 0, 0, 0];
    WordSplit(bits);
    assert BE32(0, 0, 0, 0) == 0 by { WordSplit(0); }
  }

  lemma OnlyBlockWord(tail: seq<byte>, field: seq<byte>, i: nat)
    requires |tail| % 4 == 0 && |tail| <= 52 && |field| == 8 && i < 16
    ensures
      var b := Spec.OnlyBlock(tail, field);
      BE32(b[4*i], b[4*i+1], b[4*i+2], b[4*i+3]) ==
      if i < |tail| / 4 then ToWords(tail)[i] else if i == |tail| / 4 then 0x8000_0000 else if i < 14 then 0
      else if i == 14 then BE32(field[0], field[1], field[2], field[3])
      else BE32(field[4], field[5], field[6], field[7])
  {
    assert |tail| == 4 * (|tail| / 4);
    OnlyBlockAt(tail, field, 4 * i);
    OnlyBlockAt(tail, field, 4 * i + 1);
    OnlyBlockAt(tail, field, 4 * i + 2);
    OnlyBlockAt(tail, field, 4 * i + 3);
    hide Spec.OnlyBlock;
  }

  /** It is the byte form read as big-endian words. */
  lemma PaddedWordsAreBytes(tail: seq<byte>, bits: word)
    requires |tail| % 4 == 0 && |tail| <= 52
    ensures PaddedWords(tail, bits) == ToWords(Spec.OnlyBlock(tail, Cpu.LengthField(bits)))
  {
    hide Cpu.LengthField, Spec.OnlyBlock, BE32;
    var field := Cpu.LengthField(bits);
    ShortLengthField(bits);
    forall i | 0 <= i < 16
      ensures PaddedWords(tail, bits)[i] == ToWords(Spec.OnlyBlock(tail, field))[i]
    {
      OnlyBlockWord(tail, field, i);
    }
  }

  lemma Digest80(header: seq<byte>)
    requires |header| == 80
    ensures Cpu.Digest(header) ==
      FromWords(Spec.CompressBytes(Spec.CompressBytes(Spec.IV, header[..64]),
        Spec.OnlyBlock(header[64..], Cpu.LengthField(640))))
  {
    hide Spec.CompressBytes, Spec.HashBlocks, Spec.OnlyBlock, Cpu.Digest, Cpu.LengthField, FromWords;
    assert header == header[..64] + header[64..];
    Cpu.DigestSplit(header[..64], header[64..]);
    Spec.HashOneBlock(Spec.IV, header[..64]);
  }

  lemma Digest32(message: seq<byte>)
    requires |message| == 32
    ensures Cpu.Digest(message) == FromWords(Spec.CompressBytes(Spec.IV, Spec.OnlyBlock(message, Cpu.LengthField(256))))
  {
    hide Spec.CompressBytes, Spec.HashBlocks, Spec.OnlyBlock, Cpu.Digest, Cpu.LengthField, FromWords;
    assert message == [] + message;
    Cpu.DigestSplit([], message);
    Spec.HashNothing(Spec.IV);
  }

  lemma Resumed80(midstate: seq<word>, tail: seq<byte>)
    requires |midstate| == 8 && |tail| == 16
    ensures Midstate.ResumedDigest(midstate, tail, 80) ==
      FromWords(Spec.CompressBytes(midstate, Spec.OnlyBlock(tail, Cpu.LengthField(640))))
  {
    hide Spec.CompressBytes, Spec.HashBlocks, Spec.OnlyBlock, Spec.PadWith, Cpu.LengthField, FromWords;
    Spec.HashPaddedTail(midstate, tail, Cpu.LengthField(640));
  }

  lemma Field640()
    ensures Cpu.LengthField(640) == Spec.LengthField(640)
  {
  }

  /** Compresses a 64-byte block loaded as words. */
  method CompressBlock(st: array<word>, block: seq<byte>)
    requires st.Length == 8 && |block| == 64
    modifies st
    ensures st[..] == Spec.CompressBytes(old(st[..]), block)
  {
    hide Spec.Compress, ToWords;
    var w := new word[16](i => 0);
    LoadWords(block, 16, w);
    assert w[..16] == w[..];
    assert st[..] == old(st[..]);
    Compress(st, w[..]);
  }

  /** Compresses a short tail padded directly in word form, as the device does for 16 and 32 bytes. */
  method CompressPadded(st: array<word>, tail: seq<byte>, bits: word)
    requires st.Length == 8 && |tail| % 4 == 0 && |tail| <= 52
    modifies st
    ensures st[..] == Spec.CompressBytes(old(st[..]), Spec.OnlyBlock(tail, Cpu.LengthField(bits)))
  {
    hide Spec.Compress, Cpu.LengthField, Spec.OnlyBlock, ToWords;
    var n := |tail| / 4;
    var w := new word[16](i => 0);
    LoadWords(tail, n, w);
    w[n] := 0x8000_0000;
    for i := n + 1 to 15
      modifies w
      invariant w[..i] == ToWords(tail) + [0x8000_0000] + seq(i - n - 1, k => 0)
    {
      w[i] := 0;
    }
    w[15] := bits;
    assert w[..] == PaddedWords(tail, bits);
    PaddedWordsAreBytes(tail, bits);
    assert st[..] == old(st[..]);
    Compress(st, w[..]);
  }

  /** The second block of an 80-byte header, laid out byte by byte. */
  method SecondBlock(header80: seq<byte>) returns (block: array<byte>)
    requires |header80| == 80
    ensures fresh(block) && block[..] == Spec.OnlyBlock(header80[64..], Cpu.LengthField(640))
  {
    hide Cpu.LengthField, Spec.LengthField;
    block := new byte[64](i => 0);
    for i := 0 to 16
      modifies block
      invariant block[..i] == header80[64..][..i]
    {
      block[i] := header80[64 + i];
    }
    block[16] := 0x80;
    for i := 17 to 56
      modifies block
      invariant block[..i] == header80[64..] + [0x80] + Zeros(i - 17)
    {
      block[i] := 0;
    }
    WriteBitLength(block, 640);
    Field640();
  }

  /** The bytes of a 64-bit length, from the highest, as the shifts in the loop take them. */
  function LengthBytes(bitlen: nat): (bs: seq<byte>)
    ensures |bs| == 8
  {
    seq(8, k requires 0 <= k < 8 => bitlen / Pow256(7 - k) % 256)
  }

  lemma LengthBytesAreField(bitlen: nat)
    requires bitlen < UINT64
    ensures LengthBytes(bitlen) == Spec.LengthField(bitlen)
  {
    Powers256();
    hide Pow256;
  }

  /** Writes a 64-bit length big-endian into the last eight bytes. */
  method WriteBitLength(block: array<byte>, bitlen: nat)
    requires block.Length == 64 && bitlen < UINT64
    modifies block
    ensures block[..] == old(block[..56]) + Spec.LengthField(bitlen)
  {
    hide Pow256, Spec.LengthField;
    ghost var bytes := LengthBytes(bitlen);
    for i := 0 to 8
      modifies block
      invariant block[..56 + i] == old(block[..56]) + bytes[..i]
    {
      block[56 + i] := bitlen / Pow256(7 - i) % 256;
      assert block[56 + i] == bytes[i];
    }
    LengthBytesAreField(bitlen);
    assert bytes[..8] == bytes && block[..64] == block[..];
  }

  method InitialState() returns (st: array<word>)
    ensures fresh(st) && st[..] == Spec.IV
  {
    TablesAreFips();
    st := new word[8](i requires 0 <= i < 8 => SHA256_IV[i]);
    assert st[..] == SHA256_IV;
  }

  /** sha256_80_be. */
  method Sha256Header(header80: seq<byte>, out32: array<byte>)
    requires |header80| == 80 && out32.Length == 32
    modifies out32
    ensures out32[..] == Cpu.Digest(header80)
  {
    hide Spec.CompressBytes, Cpu.Digest, Cpu.LengthField, FromWords, Spec.OnlyBlock;
    var st := InitialState();
    CompressBlock(st, header80[..64]);
    ghost var mid := st[..];
    var block := SecondBlock(header80);
    assert st[..] == mid;
    CompressBlock(st, block[..]);
    Digest80(header80);
    Cpu.WriteDigest(st, out32);
  }

  /** The second hash of both device paths. */
  method HashDigest(t1: seq<byte>, out32: array<byte>)
    requires |t1| == 32 && out32.Length == 32
    modifies out32
    ensures out32[..] == Cpu.Digest(t1)
  {
    hide Spec.CompressBytes, Cpu.Digest, Cpu.LengthField, FromWords, Spec.OnlyBlock;
    var st := InitialState();
    CompressPadded(st, t1, 256);
    Digest32(t1);
    Cpu.WriteDigest(st, out32);
  }

  /** sha256d_80_be: the device double hash of a header is the CPU double hash. */
  method Sha256dHeader(header80: seq<byte>, out32: array<byte>)
    requires |header80| == 80 && out32.Length == 32
    modifies out32
    ensures out32[..] == Cpu.Digest(Cpu.Digest(header80))
  {
    hide Cpu.Digest;
    var t1 := new byte[32];
    Sha256Header(header80, t1);
    HashDigest(t1[..], out32);
  }

  /** What kernel_mine_stub computes: a midstate with any non-zero word is trusted, else the header is hashed whole. */
  function StubDigest(header80: seq<byte>, midstate: seq<word>): (digest: seq<byte>)
    requires |header80| == 80 && |midstate| == 8
    ensures |digest| == 32
  {
    if exists i :: 0 <= i < 8 && midstate[i] != 0 then
      Cpu.Digest(Midstate.ResumedDigest(midstate, header80[64..], 80))
    else
      Cpu.Digest(Cpu.Digest(header80))
  }

  /** The loop that decides whether a midstate was provided. */
  method AnyNonZero(midstate: seq<word>) returns (found: bool)
    requires |midstate| == 8
    ensures found <==> exists i :: 0 <= i < 8 && midstate[i] != 0
  {
    for i := 0 to 8
      invariant forall k :: 0 <= k < i ==> midstate[k] == 0
    {
      if midstate[i] != 0 {
        return true;
      }
    }
    return false;
  }

  /** The digest part of kernel_mine_stub. */
  method MineStubDigest(header80: seq<byte>, midstate: seq<word>, digest: array<byte>)
    requires |header80| == 80 && |midstate| == 8 && digest.Length == 32
    modifies digest
    ensures digest[..] == StubDigest(header80, midstate)
    ensures digest[..] ==
      if forall i :: 0 <= i < 8 ==> midstate[i] == 0 then Cpu.Digest(Cpu.Digest(header80))
      else Cpu.Digest(Midstate.ResumedDigest(midstate, header80[64..], 80))
  {
    hide Spec.CompressBytes, Cpu.Digest, Cpu.LengthField, FromWords, Spec.OnlyBlock, Midstate.ResumedDigest;
    var usedMidstate := AnyNonZero(midstate);
    if usedMidstate {
      var st := new word[8](k requires 0 <= k < 8 => midstate[k]);
      assert st[..] == midstate;
      CompressPadded(st, header80[64..], 640);
      Resumed80(midstate, header80[64..]);
      var t1 := new byte[32];
      Cpu.WriteDigest(st, t1);
      HashDigest(t1[..], digest);
    } else {
      Sha256dHeader(header80, digest);
    }
  }

  /** With the midstate of the header's first 64 bytes, or none, the stub kernel computes the CPU double hash. */
  lemma StubAgrees(header80: seq<byte>, midstate: seq<word>)
    requires |header80| == 80 && |midstate| == 8
    ensures midstate == Spec.CompressBytes(Spec.IV, header80[..64]) || midstate == seq(8, i => 0) ==>
      StubDigest(header80, midstate) == Cpu.Digest(Cpu.Digest(header80))
  {
    hide Spec.CompressBytes, Cpu.Digest, Midstate.ResumedDigest;
    Midstate.MidstateAgrees(header80);
  }
}
