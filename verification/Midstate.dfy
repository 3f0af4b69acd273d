/**
 * Resuming SHA-256 from a saved state, src/normalize/midstate.cc. Its block transform is the one of cpu_verify.cc
 * word for word, so CpuVerify.Transform stands for both.
 */
module Midstate {
  import opened Words
  import Cpu = CpuVerify
  import Spec = Sha256Spec

  /** The digest reached from a saved state by hashing a tail padded for a message of totalLen bytes. */
  function ResumedDigest(midstate: seq<word>, tail: seq<byte>, totalLen: nat): (digest: seq<byte>)
    requires |midstate| == 8
    ensures |digest| == 32
  {
    FromWords(Spec.HashBlocks(midstate, Spec.PadWith(tail, Cpu.LengthField(Cpu.BitCount(totalLen)))))
  }

  /** sha256_midstate_64. */
  method Midstate64(first64: seq<byte>) returns (out: array<word>)
    requires |first64| == 64
    ensures fresh(out) && out[..] == Spec.CompressBytes(Spec.IV, first64)
  {
    hide Spec.CompressBytes;
    var state := new word[8];
    Cpu.SetInitialState(state);
    Cpu.Transform(state, first64);
    out := new word[8];
    for i := 0 to 8
      modifies out
      invariant out[..i] == state[..i]
    {
      out[i] := state[i];
    }
    assert out[..] == state[..];
  }

  /** The last steps of sha256_finish_from_midstate: copy what is left of the tail into one block or two and pad. */
  method FinalBlocks(state: array<word>, tail: seq<byte>, offset: nat, totalLen: nat)
    requires state.Length == 8 && totalLen < UINT64
    requires offset <= |tail| < offset + 64
    modifies state
    ensures state[..] ==
      Spec.HashBlocks(old(state[..]), Spec.PadWith(tail[offset..], Cpu.LengthField(Cpu.BitCount(totalLen))))
  {
    hide Spec.CompressBytes, Spec.HashBlocks, Spec.PadWith, Cpu.LengthField, Cpu.BitCount;
    var rem := |tail| - offset;
    ghost var start, last := state[..], tail[offset..];
    var block := new byte[64](i => 0);
    for i := 0 to rem
      modifies block
      invariant block[..i] == last[..i] && block[i..] == Zeros(64 - i)
    {
      block[i] := tail[offset + i];
    }
    assert state[..] == start;
    block[rem] := 0x80;
    assert block[..] == last + [0x80] + Zeros(63 - rem);
    if rem >= 56 {
      assert block[..] == Spec.TailBlock(last);
      Cpu.Transform(state, block[..]);
      assert state[..] == Spec.CompressBytes(start, Spec.TailBlock(last));
      for i := 0 to 64
        modifies block
        invariant block[..i] == Zeros(i)
      {
        block[i] := 0;
      }
    }
    assert state[..] == if rem < 56 then start else Spec.CompressBytes(start, Spec.TailBlock(last));
    var bitlen := Cpu.BitCount(totalLen);
    ghost var field := Cpu.LengthField(bitlen);
    Cpu.WriteLength(block, bitlen);
    assert block[..] == if rem < 56 then Spec.OnlyBlock(last, field) else Spec.LengthBlock(field);
    Cpu.Transform(state, block[..]);
    Spec.HashPaddedTail(start, last, field);
  }

  /** sha256_finish_from_midstate. */
  method FinishFromMidstate(midstate: seq<word>, tail: seq<byte>, totalLen: nat, out32: array<byte>)
    requires |midstate| == 8 && out32.Length == 32 && totalLen < UINT64
    modifies out32
    ensures out32[..] == ResumedDigest(midstate, tail, totalLen)
  {
    hide Spec.CompressBytes, Spec.HashBlocks, Spec.PadWith, FromWords, Cpu.LengthField, Cpu.BitCount;
    var state := new word[8];
    for i := 0 to 8
      modifies state
      invariant state[..i] == midstate[..i]
    {
      state[i] := midstate[i];
    }
    assert state[..] == midstate;
    assert tail[..0] == [];
    assert state[..] == Spec.HashBlocks(midstate, tail[..0]) by { Spec.HashNothing(midstate); }

    var rem, offset := |tail|, 0;
    while rem >= 64
      invariant 0 <= rem && 0 <= offset && offset + rem == |tail| && offset % 64 == 0
      invariant state[..] == Spec.HashBlocks(midstate, tail[..offset])
    {
      var block := tail[offset..offset+64];
      Spec.HashAppendBlock(midstate, tail[..offset], block);
      assert tail[..offset+64] == tail[..offset] + block;
      Cpu.Transform(state, block);
      offset := offset + 64;
      rem := rem - 64;
    }

    assert tail == tail[..offset] + tail[offset..];
    Spec.HashPaddedSplit(midstate, tail[..offset], tail[offset..], Cpu.LengthField(Cpu.BitCount(totalLen)));
    FinalBlocks(state, tail, offset, totalLen);
    Cpu.WriteDigest(state, out32);
  }

  /** Saving the state after any whole number of blocks and resuming over the rest gives the streaming digest. */
  lemma ResumeAgrees(full: seq<byte>, tail: seq<byte>)
    requires |full| % 64 == 0
    ensures ResumedDigest(Spec.HashBlocks(Spec.IV, full), tail, |full + tail|) == Cpu.Digest(full + tail)
  {
    hide Spec.HashBlocks, Spec.PadWith, Cpu.LengthField, Cpu.BitCount, FromWords;
    Spec.HashPaddedSplit(Spec.IV, full, tail, Cpu.LengthField(Cpu.BitCount(|full + tail|)));
  }

  /** The use the miner makes of it: the first 64 bytes are compressed once and the rest is finished later. */
  lemma MidstateAgrees(message: seq<byte>)
    requires |message| >= 64
    ensures ResumedDigest(Spec.CompressBytes(Spec.IV, message[..64]), message[64..], |message|) == Cpu.Digest(message)
  {
    hide Spec.HashBlocks, Spec.CompressBytes, ResumedDigest, Cpu.Digest;
    Spec.HashOneBlock(Spec.IV, message[..64]);
    ResumeAgrees(message[..64], message[64..]);
    assert message[..64] + message[64..] == message;
  }
}
