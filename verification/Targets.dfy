/** Compact targets, src/normalize/targets.cc, and the hash comparison of src/submit/cpu_verify.cc. */
module Targets {
  import opened Words
  import opened Arithmetic

  // ---- Words and bytes ----

  /** setFromBigEndianBytes: eight words, each the swap of four big-endian bytes. */
  function LEWords(be: seq<byte>): (ws: seq<word>)
    requires |be| == 32
    ensures |ws| == 8
  {
    seq(8, i requires 0 <= i < 8 => ByteSwap(BE32(be[4*i], be[4*i+1], be[4*i+2], be[4*i+3])))
  }

  /** The bytes isHashLEQTarget compares with: each word swapped and written big-endian. */
  function TargetBytes(ws: seq<word>): (be: seq<byte>)
    requires |ws| == 8
    ensures |be| == 32
  {
    seq(32, k requires 0 <= k < 32 => WordBytes(ByteSwap(ws[k / 4]))[k % 4])
  }

  /** The words are read from the bytes with the lowest first. */
  lemma LEWordsAre(be: seq<byte>, i: nat)
    requires |be| == 32 && i < 8
    ensures LEWords(be)[i] ==
      be[4*i] as int + 0x100 * be[4*i+1] as int + 0x1_0000 * be[4*i+2] as int + 0x100_0000 * be[4*i+3] as int
  {
    hide ByteSwap, BE32;
    assert LEWords(be)[i] == ByteSwap(BE32(be[4*i], be[4*i+1], be[4*i+2], be[4*i+3]));
    hide LEWords;
    WordOfReversed(be[4*i], be[4*i+1], be[4*i+2], be[4*i+3]);
  }

  lemma WordOfReversed(b0: byte, b1: byte, b2: byte, b3: byte)
    ensures ByteSwap(BE32(b0, b1, b2, b3)) ==
      b0 as int + 0x100 * b1 as int + 0x1_0000 * b2 as int + 0x100_0000 * b3 as int
  {
    hide ByteSwap;
    SwapBytes(b0, b1, b2, b3);
  }

  /** And written to the bytes with the lowest first. */
  lemma TargetBytesAre(ws: seq<word>, i: nat)
    requires |ws| == 8 && i < 8
    ensures TargetBytes(ws)[4*i..4*i+4] ==
      [ws[i] % 256, ws[i] / 0x100 % 256, ws[i] / 0x1_0000 % 256, ws[i] / 0x100_0000]
  {
    BytesOf(ws[i] % 256, ws[i] / 0x100 % 256, ws[i] / 0x1_0000 % 256, ws[i] / 0x100_0000);
    assert WordBytes(ByteSwap(ws[i])) ==
      [ws[i] % 256, ws[i] / 0x100 % 256, ws[i] / 0x1_0000 % 256, ws[i] / 0x100_0000];
    hide ByteSwap, WordBytes;
    TargetBytesAt(ws, i);
  }

  lemma SwapTwice(b0: byte, b1: byte, b2: byte, b3: byte)
    ensures WordBytes(ByteSwap(ByteSwap(BE32(b0, b1, b2, b3)))) == [b0, b1, b2, b3]
  {
    hide BE32, ByteSwap;
    SwapBytes(b0, b1, b2, b3);
    SwapBytes(b3, b2, b1, b0);
    BytesOf(b0, b1, b2, b3);
  }

  /** Storing big-endian bytes as target words and comparing reads the same bytes again. */
  lemma TargetRoundTrip(be: seq<byte>)
    requires |be| == 32
    ensures TargetBytes(LEWords(be)) == be
  {
    hide WordBytes, ByteSwap, BE32;
    forall k | 0 <= k < 32
      ensures TargetBytes(LEWords(be))[k] == be[k]
    {
      var i := k / 4;
      assert k == 4 * i + k % 4;
      SwapTwice(be[4*i], be[4*i+1], be[4*i+2], be[4*i+3]);
    }
  }

  // ---- Numbers ----

  lemma {:induction false} BEValZeros(n: nat)
    ensures BEVal(Zeros(n)) == 0
  {
    if n > 0 {
      assert Zeros(n)[..n-1] == Zeros(n - 1);
      BEValZeros(n - 1);
    }
  }

  lemma {:induction false} BEValBound(s: seq<byte>)
    ensures BEVal(s) < Pow256(|s|)
  {
    if |s| > 0 {
      BEValBound(s[..|s|-1]);
    }
  }

  lemma TargetBytesAt(ws: seq<word>, i: nat)
    requires |ws| == 8 && i < 8
    ensures TargetBytes(ws)[..4*i+4] == TargetBytes(ws)[..4*i] + WordBytes(ByteSwap(ws[i]))
  {
    hide ByteSwap, WordBytes;
    assert forall k :: 4*i <= k < 4*i+4 ==> k / 4 == i && k % 4 == k - 4 * i;
  }

  /** isHashLEQTarget compares as big-endian numbers. */
  method IsHashLEQTarget(hash: seq<byte>, target: seq<word>) returns (leq: bool)
    requires |hash| == 32 && |target| == 8
    ensures leq <==> BEVal(hash) <= BEVal(TargetBytes(target))
  {
    hide ByteSwap, WordBytes, TargetBytes;
    var targetBe := new byte[32];
    for i := 0 to 8
      invariant targetBe[..4*i] == TargetBytes(target)[..4*i]
    {
      var w := ByteSwap(target[i]);
      var bytes := WordBytes(w);
      targetBe[4*i], targetBe[4*i+1], targetBe[4*i+2], targetBe[4*i+3] := bytes[0], bytes[1], bytes[2], bytes[3];
      TargetBytesAt(target, i);
      assert targetBe[..4*i+4] == targetBe[..4*i] + bytes;
    }
    assert targetBe[..] == targetBe[..32] && TargetBytes(target) == TargetBytes(target)[..32];
    leq := CompareBytes(hash, targetBe[..]);
  }

  /** The byte-wise comparison, shared with the hit test of the mining kernels. */
  method CompareBytes(hash: seq<byte>, target: seq<byte>) returns (leq: bool)
    requires |hash| == |target|
    ensures leq <==> BEVal(hash) <= BEVal(target)
  {
    for i := 0 to |hash|
      invariant hash[..i] == target[..i]
    {
      if hash[i] < target[i] {
        BEValFirstDifference(hash, target, i);
        return true;
      }
      if hash[i] > target[i] {
        BEValFirstDifference(target, hash, i);
        return false;
      }
    }
    assert hash == target;
    return true;
  }

  // ---- Compact targets ----

  function Exponent(nBits: word): nat { nBits / 0x100_0000 }

  function Mantissa(nBits: word): nat { nBits % 0x80_0000 }

  predicate Negative(nBits: word) { nBits / 0x80_0000 % 2 == 1 }

  function Ones(n: nat): (bs: seq<byte>)
    ensures |bs| == n && forall i :: 0 <= i < n ==> bs[i] == 0xff
  {
    seq(n, i => 0xff)
  }

  /**
   * The 32 bytes the decoder fills in. Below exponent 3 the shifted mantissa is stored as if it still had three bytes;
   * at exponent 0 its only store falls behind the array.
   */
  function CompactBytes(nBits: word): (be: seq<byte>)
    ensures |be| == 32
  {
    var e, m := Exponent(nBits), Mantissa(nBits);
    if Negative(nBits) || m == 0 then Zeros(32)
    else if e > 32 then Ones(32)
    else if e >= 3 then Zeros(32 - e) + [m / 0x1_0000, m / 0x100 % 256, m % 256] + Zeros(e - 3)
    else if e == 2 then Zeros(31) + [m / 0x100 / 0x100 % 256]
    else Zeros(32)
  }

  /** The number those bytes stand for. */
  function TargetValue(nBits: word): nat {
    BEVal(CompactBytes(nBits))
  }

  /** The target as the encoding defines it: the mantissa with its last byte at position exponent - 3. */
  function Formula(nBits: word): int {
    var e, m := Exponent(nBits), Mantissa(nBits);
    if e >= 3 then m * Pow256(e - 3) else m / Pow256(3 - e)
  }

  lemma WordsOfConstant(b: byte)
    ensures LEWords(seq(32, i => b)) == seq(8, i => BE32(b, b, b, b))
  {
    hide BE32, ByteSwap;
    assert ByteSwap(BE32(b, b, b, b)) == BE32(b, b, b, b) by { SwapConstant(b); }
  }

  lemma SwapConstant(b: byte)
    ensures ByteSwap(BE32(b, b, b, b)) == BE32(b, b, b, b)
  {
    BytesOf(b, b, b, b);
  }

  /** setFromBigEndianBytes. */
  method SetFromBigEndianBytes(out: array<word>, be: seq<byte>)
    requires out.Length == 8 && |be| == 32
    modifies out
    ensures out[..] == LEWords(be)
  {
    hide ByteSwap, BE32;
    for i := 0 to 8
      invariant forall k :: 0 <= k < i ==> out[k] == LEWords(be)[k]
    {
      out[i] := ByteSwap(BE32(be[4*i], be[4*i+1], be[4*i+2], be[4*i+3]));
    }
  }

  lemma ShiftedMantissa(mantissa: nat, exponent: nat)
    requires exponent <= 3 && mantissa < 0x80_0000
    ensures
      var m := mantissa / Pow256(3 - exponent);
      && (exponent == 3 ==> m == mantissa) && (exponent == 2 ==> m == mantissa / 0x100)
      && (exponent < 3 ==> m / 0x1_0000 % 256 == 0) && m / 0x1_0000 < 256
  {
    Powers256();
    hide Pow256;
    if exponent == 1 {
      DivDiv(mantissa, 0x1_0000, 0x1_0000);
    } else if exponent == 0 {
      DivDiv(mantissa, 0x100_0000, 0x1_0000);
    }
  }

  /**
   * The stores into the zeroed byte array. `be` has one byte more than the array of the source: the byte behind it, to
   * which a form of exponent 0, and no other, stores a zero.
   */
  method FillCompact(be: array<byte>, exponent: nat, mantissa: nat)
    requires be.Length == 33 && exponent <= 32 && mantissa < 0x80_0000
    requires be[..32] == Zeros(32)
    modifies be
    ensures be[..32] ==
      if exponent >= 3
      then Zeros(32 - exponent) + [mantissa / 0x1_0000, mantissa / 0x100 % 256, mantissa % 256] + Zeros(exponent - 3)
      else if exponent == 2 then Zeros(31) + [mantissa / 0x100 / 0x100 % 256] else Zeros(32)
    ensures be[32] == if exponent == 0 then 0 else old(be[32])
  {
    if exponent <= 3 {
      ShiftedMantissa(mantissa, exponent);
      hide Pow256;
      var m := mantissa / Pow256(3 - exponent);
      be[32 - exponent] := m / 0x1_0000 % 256;
      if exponent >= 2 {
        be[32 - exponent + 1] := m / 0x100 % 256;
      }
      if exponent >= 3 {
        be[32 - exponent + 2] := m % 256;
      }
    } else {
      var idx := 32 - exponent;
      be[idx] := mantissa / 0x1_0000 % 256;
      be[idx + 1] := mantissa / 0x100 % 256;
      be[idx + 2] := mantissa % 256;
    }
  }

  /** The decoder stores behind its array, for these forms and no others. */
  predicate StraysBehind(nBits: word) {
    !Negative(nBits) && Mantissa(nBits) != 0 && Exponent(nBits) == 0
  }

  /** compactToTargetU32LE; `behind` is the byte behind the local array, before and after. */
  method CompactToTargetU32LE(nBits: word, behind: byte) returns (target: array<word>, behind': byte)
    ensures fresh(target) && target[..] == LEWords(CompactBytes(nBits))
    ensures behind' == if StraysBehind(nBits) then 0 else behind
  {
    behind' := behind;
    hide ByteSwap, BE32, LEWords;
    target := new word[8](i => 0);
    var exponent, mantissa := nBits / 0x100_0000, nBits % 0x80_0000;
    if nBits / 0x80_0000 % 2 == 1 || mantissa == 0 {
      WordsOfConstant(0);
      assert Zeros(32) == seq(32, i => 0) && BE32(0, 0, 0, 0) == 0 by { WordSplit(0); }
      assert target[..] == seq(8, i => 0);
      return;
    }
    if exponent > 32 {
      for i := 0 to 8
        modifies target
        invariant target[..i] == seq(i, k => 0xffff_ffff)
      {
        target[i] := 0xffff_ffff;
      }
      WordsOfConstant(0xff);
      assert Ones(32) == seq(32, i => 0xff);
      assert BE32(0xff, 0xff, 0xff, 0xff) == 0xffff_ffff by { WordSplit(0xffff_ffff); }
      assert target[..] == seq(8, k => 0xffff_ffff);
      return;
    }
    var be := new byte[33](i => 0);
    be[32] := behind;
    assert be[..32] == Zeros(32);
    FillCompact(be, exponent, mantissa);
    SetFromBigEndianBytes(target, be[..32]);
    behind' := be[32];
  }

  lemma ThreeBytes(m: nat)
    requires m < 0x80_0000
    ensures BEVal([m / 0x1_0000, m / 0x100 % 256, m % 256]) == m
  {
    var s: seq<byte> := [m / 0x1_0000, m / 0x100 % 256, m % 256];
    var two, one := s[..2], s[..1];
    assert two[..1] == one && one[..0] == [];
    assert BEVal(one) == s[0];
    assert BEVal(two) == 256 * BEVal(one) + s[1];
    DivTwice(m);
  }

  lemma {:induction false} MaxValue(n: nat)
    ensures BEVal(Ones(n)) == Pow256(n) - 1
  {
    if n > 0 {
      assert Ones(n)[..n-1] == Ones(n - 1);
      MaxValue(n - 1);
    }
  }

  lemma PositionValue(front: nat, m: nat, back: nat)
    requires m < 0x80_0000
    ensures BEVal(Zeros(front) + [m / 0x1_0000, m / 0x100 % 256, m % 256] + Zeros(back)) == m * Pow256(back)
  {
    var digits: seq<byte> := [m / 0x1_0000, m / 0x100 % 256, m % 256];
    ThreeBytes(m);
    hide BEVal, Pow256;
    BEValConcat(Zeros(front) + digits, Zeros(back));
    BEValConcat(Zeros(front), digits);
    BEValZeros(front);
    BEValZeros(back);
  }

  /** The target of every compact form, as a number. */
  lemma ValueIs(nBits: word)
    ensures
      var e, m := Exponent(nBits), Mantissa(nBits);
      TargetValue(nBits) ==
      if Negative(nBits) || m == 0 then 0 else if e > 32 then Pow256(32) - 1 else if e >= 3 then m * Pow256(e - 3)
      else if e == 2 then m / 0x1_0000 else 0
  {
    var e, m := Exponent(nBits), Mantissa(nBits);
    hide Pow256;
    BEValZeros(32);
    if !Negative(nBits) && m != 0 {
      if e > 32 {
        MaxValue(32);
      } else if e >= 3 {
        PositionValue(32 - e, m, e - 3);
      } else if e == 2 {
        BEValZeros(31);
        LastByte(31, m / 0x100 / 0x100 % 256);
        DivTwice(m);
      }
    }
  }

  lemma LastByte(n: nat, b: byte)
    ensures BEVal(Zeros(n) + [b]) == b
  {
    BEValZeros(n);
    assert (Zeros(n) + [b])[..n] == Zeros(n);
  }

  /**
   * For a non-negative compact form, the decoded target is the number the encoding defines exactly when the exponent
   * lies between 3 and 32 or that number is zero.
   */
  lemma CompactExact(nBits: word)
    requires !Negative(nBits)
    ensures TargetValue(nBits) == Formula(nBits) <==> 3 <= Exponent(nBits) <= 32 || Formula(nBits) == 0
  {
    Powers256();
    ValueIs(nBits);
    hide TargetValue, BEVal;
    var e, m := Exponent(nBits), Mantissa(nBits);
    if e > 32 {
      hide Pow256;
      NeverAllOnes(m, e - 4, 31);
    } else if e >= 3 {
      hide Pow256;
      assert m == 0 ==> 0 * Pow256(e - 3) == 0;
    } else if e == 2 {
      assert m / 0x1_0000 == m / 0x100 / 0x100 by { DivTwice(m); }
    }
  }

  /** All ones is no multiple of 256, so it is never the number of an exponent above 3. */
  lemma NeverAllOnes(m: nat, n: nat, k: nat)
    ensures m * Pow256(n + 1) != Pow256(k + 1) - 1
    ensures m == 0 <==> m * Pow256(n + 1) == 0
  {
    var p, q := Pow256(n), Pow256(k);
    assert Pow256(n + 1) == 256 * p && Pow256(k + 1) == 256 * q;
    hide Pow256;
    assert m * (256 * p) == 256 * (m * p);
    if m > 0 {
      MulMonotone(1, m, p);
    }
  }

  lemma {:induction false} Pow256Grows(a: nat, b: nat)
    requires a <= b
    ensures Pow256(a) <= Pow256(b)
  {
    if a < b {
      Pow256Grows(a, b - 1);
    }
  }

  /** Above exponent 32 the number still fits in 32 bytes for these two families, and is replaced by all ones. */
  lemma FitsButSaturates(nBits: word)
    requires !Negative(nBits) && Exponent(nBits) > 32 && Mantissa(nBits) != 0
    ensures TargetValue(nBits) == Pow256(32) - 1 != Formula(nBits)
    ensures Formula(nBits) < Pow256(32) <==>
      (Exponent(nBits) == 33 && Mantissa(nBits) < 0x1_0000) || (Exponent(nBits) == 34 && Mantissa(nBits) < 0x100)
  {
    var e, m := Exponent(nBits), Mantissa(nBits);
    ValueIs(nBits);
    hide TargetValue, BEVal, Mantissa, Exponent, Pow256;
    NeverAllOnes(m, e - 4, 31);
    FitsAt(m, 30);
    if e > 34 {
      Pow256Grows(32, e - 3);
      MulMonotone(1, m, Pow256(e - 3));
    }
  }

  lemma FitsAt(m: nat, n: nat)
    ensures m * Pow256(n) < Pow256(n + 2) <==> m < 0x1_0000
    ensures m * Pow256(n + 1) < Pow256(n + 2) <==> m < 0x100
  {
    var p, q := Pow256(n), Pow256(n + 1);
    assert q == 256 * p && Pow256(n + 2) == 256 * q;
    hide Pow256;
    FitsBelow(m, 0x1_0000, p);
    FitsBelow(m, 0x100, q);
  }

  lemma FitsBelow(m: nat, p: nat, q: nat)
    requires q > 0
    ensures m * q < p * q <==> m < p
  {
    if m < p {
      MulMonotone(m + 1, p, q);
      MulNext(m, q);
    } else {
      MulMonotone(p, m, q);
    }
  }

  /** 0x2100ffff stands for 0xffff * 256^30, which fits, and decodes to 2^256 - 1. */
  lemma SaturatedExample()
    ensures Formula(0x2100_ffff) == 0xffff * Pow256(30) < Pow256(32) && TargetValue(0x2100_ffff) == Pow256(32) - 1
  {
    assert Exponent(0x2100_ffff) == 33 && Mantissa(0x2100_ffff) == 0xffff && !Negative(0x2100_ffff);
    FitsButSaturates(0x2100_ffff);
    hide Pow256;
  }

  /** Decoding and comparing: a hash meets the decoded target exactly when, as a number, it is at most the target. */
  lemma MeetsTarget(hash: seq<byte>, nBits: word)
    requires |hash| == 32
    ensures BEVal(hash) <= BEVal(TargetBytes(LEWords(CompactBytes(nBits)))) <==> BEVal(hash) <= TargetValue(nBits)
  {
    hide BEVal, CompactBytes;
    TargetRoundTrip(CompactBytes(nBits));
  }

  /** From exponent 3 to 32 that target is the mantissa times 256 to the exponent less 3. */
  lemma MeetsFormula(hash: seq<byte>, nBits: word)
    requires |hash| == 32 && !Negative(nBits) && 3 <= Exponent(nBits) <= 32
    ensures BEVal(hash) <= BEVal(TargetBytes(LEWords(CompactBytes(nBits)))) <==>
      BEVal(hash) <= Mantissa(nBits) * Pow256(Exponent(nBits) - 3)
  {
    hide BEVal, CompactBytes, TargetBytes, LEWords, TargetValue, Pow256;
    MeetsTarget(hash, nBits);
    CompactExact(nBits);
  }

  // ---- Monotonicity ----

  /** The sign is clear and the mantissa uses its highest byte or, to keep the sign clear, the bit below it. */
  predicate Normalised(nBits: word) {
    !Negative(nBits) && Exponent(nBits) >= 3 && Mantissa(nBits) >= 0x8000
  }

  lemma FormulaGrows(e1: nat, m1: nat, e2: nat, m2: nat)
    requires 3 <= e1 && (e1 < e2 || (e1 == e2 && m1 <= m2)) && m1 < 0x80_0000 && 0x8000 <= m2
    ensures m1 * Pow256(e1 - 3) <= m2 * Pow256(e2 - 3)
  {
    if e1 == e2 {
      MulMonotone(m1, m2, Pow256(e1 - 3));
    } else {
      var p := Pow256(e1 - 3);
      MulMonotone(m1, 0x8000 * 256, p);
      Pow256Grows(e1 - 2, e2 - 3);
      assert Pow256(e1 - 2) == 256 * p;
      hide Pow256;
      assert 0x8000 * (256 * p) == 0x8000 * 256 * p;
      assert 0x8000 * (256 * p) <= 0x8000 * Pow256(e2 - 3);
      MulMonotone(0x8000, m2, Pow256(e2 - 3));
    }
  }

  /** Over normalised forms a larger compact value never decodes to a smaller target. */
  lemma TargetMonotone(n1: word, n2: word)
    requires Normalised(n1) && Normalised(n2) && n1 <= n2
    ensures TargetValue(n1) <= TargetValue(n2)
  {
    ValueIs(n1);
    ValueIs(n2);
    BEValBound(CompactBytes(n1));
    hide BEVal, Pow256, CompactBytes;
    ExponentOrder(n1, n2);
    if Exponent(n2) <= 32 {
      FormulaGrows(Exponent(n1), Mantissa(n1), Exponent(n2), Mantissa(n2));
    }
  }

  lemma ExponentOrder(n1: word, n2: word)
    requires !Negative(n1) && !Negative(n2) && n1 <= n2
    ensures Exponent(n1) < Exponent(n2) || (Exponent(n1) == Exponent(n2) && Mantissa(n1) <= Mantissa(n2))
  {
    Parts(n1);
    Parts(n2);
  }

  lemma Parts(n: word)
    ensures n == Exponent(n) * 0x100_0000 + (if Negative(n) then 0x80_0000 else 0) + Mantissa(n)
  {
    var h := n / 0x80_0000;
    assert n == h * 0x80_0000 + n % 0x80_0000;
    assert h == h / 2 * 2 + h % 2;
  }

  /** When the share form is not below the block form, a hash that meets the block target meets the share target. */
  lemma BlockHitIsShareHit(hash: seq<byte>, blockBits: word, shareBits: word)
    requires |hash| == 32 && Normalised(blockBits) && Normalised(shareBits) && blockBits <= shareBits
    ensures BEVal(hash) <= BEVal(TargetBytes(LEWords(CompactBytes(blockBits)))) ==>
      BEVal(hash) <= BEVal(TargetBytes(LEWords(CompactBytes(shareBits))))
  {
    hide BEVal, CompactBytes, TargetBytes, LEWords, TargetValue;
    MeetsTarget(hash, blockBits);
    MeetsTarget(hash, shareBits);
    TargetMonotone(blockBits, shareBits);
  }
}
