/** What the midstate path of kernel_mine_batch and kernel_mine_batch_unroll hashes, src/cuda/engine.cu. */
module BatchSha {
  import opened Words
  import Cpu = CpuVerify
  import Device = DeviceSha
  import Midstate
  import Spec = Sha256Spec

  /** The four header words behind the midstate: the end of the Merkle root, time, bits and nonce. */
  function TailWords(header80: seq<byte>): (ws: seq<word>)
    requires |header80| == 80
    ensures |ws| == 4
  {
    assert |header80[64..]| % 4 == 0;
    ToWords(header80[64..])
  }

  /** The last sixteen bytes of the header with the bytes of each word in the opposite order. */
  function SwappedTail(header80: seq<byte>): (tail: seq<byte>)
    requires |header80| == 80
    ensures |tail| == 16
  {
    var h := header80[64..];
    [h[3], h[2], h[1], h[0], h[7], h[6], h[5], h[4], h[11], h[10], h[9], h[8], h[15], h[14], h[13], h[12]]
  }

  function SwappedHeader(header80: seq<byte>): (message: seq<byte>)
    requires |header80| == 80
    ensures |message| == 80
  {
    header80[..64] + SwappedTail(header80)
  }

  lemma SwappedWord(header80: seq<byte>, i: nat)
    requires |header80| == 80 && i < 4
    ensures ToWords(SwappedTail(header80))[i] == ByteSwap(TailWords(header80)[i])
  {
    hide BE32, ByteSwap;
    var h := header80[64..];
    SwapBytes(h[4*i], h[4*i+1], h[4*i+2], h[4*i+3]);
  }

  /** The first and second hash of the kernels: from a midstate with any non-zero word, or of the header whole. */
  function BatchDigest(header80: seq<byte>, midstate: seq<word>): (digest: seq<byte>)
    requires |header80| == 80 && |midstate| == 8
    ensures |digest| == 32
  {
    if exists i :: 0 <= i < 8 && midstate[i] != 0 then
      Cpu.Digest(Midstate.ResumedDigest(midstate, SwappedTail(header80), 80))
    else
      Cpu.Digest(Cpu.Digest(header80))
  }

  /** The second block of the kernels: the tail words swapped, padding and bit length. */
  method LoadTail(header80: seq<byte>) returns (w: array<word>)
    requires |header80| == 80
    ensures fresh(w) && w[..] == Device.PaddedWords(SwappedTail(header80), 640)
  {
    hide ByteSwap, ToWords, SwappedTail;
    w := new word[16](i => 0);
    var tail := TailWords(header80);
    for i := 0 to 4
      modifies w
      invariant w[..i] == ToWords(SwappedTail(header80))[..i]
    {
      SwappedWord(header80, i);
      w[i] := ByteSwap(tail[i]);
    }
    w[4] := 0x8000_0000;
    for i := 5 to 15
      modifies w
      invariant w[..i] == ToWords(SwappedTail(header80)) + [0x8000_0000] + seq(i - 5, k => 0)
    {
      w[i] := 0;
    }
    w[15] := 640;
  }

  /** The digest part of the batch kernels. */
  method MineBatchDigest(header80: seq<byte>, midstate: seq<word>, digest: array<byte>)
    requires |header80| == 80 && |midstate| == 8 && digest.Length == 32
    modifies digest
    ensures digest[..] == BatchDigest(header80, midstate)
    ensures digest[..] ==
      if forall i :: 0 <= i < 8 ==> midstate[i] == 0 then Cpu.Digest(Cpu.Digest(header80))
      else Cpu.Digest(Midstate.ResumedDigest(midstate, SwappedTail(header80), 80))
  {
    hide Spec.Compress, Cpu.Digest, Cpu.LengthField, FromWords, Spec.OnlyBlock, Midstate.ResumedDigest, SwappedTail;
    hide Device.PaddedWords, ToWords;
    var usedMidstate := Device.AnyNonZero(midstate);
    if usedMidstate {
      var st := new word[8](k requires 0 <= k < 8 => midstate[k]);
      assert st[..] == midstate;
      var w := LoadTail(header80);
      var tail := SwappedTail(header80);
      Device.PaddedWordsAreBytes(tail, 640);
      Device.Compress(st, w[..]);
      Device.Resumed80(midstate, tail);
      var t1 := new byte[32];
      Cpu.WriteDigest(st, t1);
      Device.HashDigest(t1[..], digest);
    } else {
      Device.Sha256dHeader(header80, digest);
    }
  }

  /**
   * From the midstate of the header's first 64 bytes the kernels hash the header with its last four words swapped, and
   * without a midstate the header itself.
   */
  lemma BatchHashes(header80: seq<byte>, midstate: seq<word>)
    requires |header80| == 80 && |midstate| == 8
    ensures midstate == Spec.CompressBytes(Spec.IV, header80[..64]) && midstate != seq(8, i => 0) ==>
      BatchDigest(header80, midstate) == Cpu.Digest(Cpu.Digest(SwappedHeader(header80)))
    ensures midstate == seq(8, i => 0) ==> BatchDigest(header80, midstate) == Cpu.Digest(Cpu.Digest(header80))
  {
    hide Spec.CompressBytes, Cpu.Digest, Midstate.ResumedDigest, SwappedTail;
    var message := SwappedHeader(header80);
    assert message[..64] == header80[..64] && message[64..] == SwappedTail(header80);
    if forall i :: 0 <= i < 8 ==> midstate[i] == 0 {
      assert midstate == seq(8, i => 0);
    }
    Midstate.MidstateAgrees(message);
  }

  /** A word reads the same in both byte orders. */
  predicate OwnSwap(w: word) {
    ByteSwap(w) == w
  }

  lemma OwnSwapBytes(b0: byte, b1: byte, b2: byte, b3: byte)
    ensures OwnSwap(BE32(b0, b1, b2, b3)) <==> b0 == b3 && b1 == b2
  {
    SwapBytes(b0, b1, b2, b3);
    BytesOf(b0, b1, b2, b3);
    BytesOf(b3, b2, b1, b0);
  }

  lemma OwnSwapWord(header80: seq<byte>, i: nat)
    requires |header80| == 80 && i < 4
    ensures OwnSwap(TailWords(header80)[i]) <==>
      header80[64+4*i] == header80[67+4*i] && header80[65+4*i] == header80[66+4*i]
  {
    hide BE32, OwnSwap;
    var h := header80[64..];
    OwnSwapBytes(h[4*i], h[4*i+1], h[4*i+2], h[4*i+3]);
  }

  /** That is the header itself if and only if each of the four words reads the same in both byte orders. */
  lemma SwappedIsHeader(header80: seq<byte>)
    requires |header80| == 80
    ensures SwappedHeader(header80) == header80 <==>
      forall i :: 0 <= i < 4 ==> OwnSwap(TailWords(header80)[i])
  {
    hide *;
    OwnSwapWord(header80, 0);
    OwnSwapWord(header80, 1);
    OwnSwapWord(header80, 2);
    OwnSwapWord(header80, 3);
    SameTail(header80);
  }

  lemma SameTail(header80: seq<byte>)
    requires |header80| == 80
    ensures SwappedHeader(header80) == header80 <==>
      && header80[64] == header80[67] && header80[65] == header80[66]
      && header80[68] == header80[71] && header80[69] == header80[70]
      && header80[72] == header80[75] && header80[73] == header80[74]
      && header80[76] == header80[79] && header80[77] == header80[78]
  {
    var h, s := header80[64..], SwappedTail(header80);
    assert header80 == header80[..64] + h;
    assert SwappedHeader(header80)[64..] == s;
    assert s == h <==> SwappedHeader(header80) == header80;
  }

  /** So a header with nonce 1 is never what the kernels hash from a midstate. */
  lemma NonceOneDiffers(header80: seq<byte>)
    requires |header80| == 80 && TailWords(header80)[3] == 1
    ensures SwappedHeader(header80) != header80
  {
    hide *;
    SwappedIsHeader(header80);
    OneIsNotItsSwap();
  }

  lemma OneIsNotItsSwap()
    ensures !OwnSwap(1)
  {
  }
}
