/** The bit-accumulator base64 encoder inside httpPostJson, src/net/rpc_client.cc. */
module Base64 {
  import opened Arithmetic
  import opened Options
  import opened Words

  const UPPER: string := "ABCDEFGHIJKLMNOPQRSTUVWXYZ"
  const LOWER: string := "abcdefghijklmnopqrstuvwxyz"
  const ALPHABET: string := UPPER + LOWER + "0123456789+/"

  type sextet = x: int | 0 <= x < 64

  function Digit(v: sextet): char {
    ALPHABET[v]
  }

  // ---- RFC 4648, section 4 ----

  /** The first, second, third and fourth digit of a group; missing bytes count as zero. */
  function D1(b0: byte): sextet { b0 / 4 }

  function D2(b0: byte, b1: byte): sextet { b0 % 4 * 16 + b1 / 16 }

  function D3(b1: byte, b2: byte): sextet { b1 % 16 * 4 + b2 / 64 }

  function D4(b2: byte): sextet { b2 % 64 }

  /** Groups of three bytes give four digits; a short last group is padded with '='. */
  function Encoded(bs: seq<byte>): string {
    if |bs| == 0 then ""
    else if |bs| == 1 then [Digit(D1(bs[0])), Digit(D2(bs[0], 0)), '=', '=']
    else if |bs| == 2 then [Digit(D1(bs[0])), Digit(D2(bs[0], bs[1])), Digit(D3(bs[1], 0)), '=']
    else [Digit(D1(bs[0])), Digit(D2(bs[0], bs[1])), Digit(D3(bs[1], bs[2])), Digit(D4(bs[2]))] + Encoded(bs[3..])
  }

  lemma {:induction false} EncodedLength(bs: seq<byte>)
    ensures |Encoded(bs)| == 4 * ((|bs| + 2) / 3) && |Encoded(bs)| % 4 == 0
    decreases |bs|
  {
    hide Digit, D1, D2, D3, D4;
    if |bs| >= 3 {
      EncodedLength(bs[3..]);
      assert |Encoded(bs)| == 4 + |Encoded(bs[3..])| && |bs[3..]| == |bs| - 3;
      hide Encoded;
      GroupCount(|bs|);
    }
  }

  lemma GroupCount(n: nat)
    requires n >= 3
    ensures (n + 2) / 3 == 1 + (n - 3 + 2) / 3 && 4 * ((n + 2) / 3) % 4 == 0
  {
    DivMod(n - 1, 3);
    ModUnique(n + 2, 3, 1 + (n - 1) / 3, (n - 1) % 3);
    ModUnique(4 * ((n + 2) / 3), 4, (n + 2) / 3, 0);
  }

  /** The digits already complete once these bytes have been read. */
  function Emitted(bs: seq<byte>): string {
    if |bs| == 0 then ""
    else if |bs| == 1 then [Digit(D1(bs[0]))]
    else if |bs| == 2 then [Digit(D1(bs[0])), Digit(D2(bs[0], bs[1]))]
    else [Digit(D1(bs[0])), Digit(D2(bs[0], bs[1])), Digit(D3(bs[1], bs[2])), Digit(D4(bs[2]))] + Emitted(bs[3..])
  }

  /** The digits that one more byte completes. */
  function Completed(bs: seq<byte>, c: byte): string {
    match |bs| % 3
    case 0 => [Digit(D1(c))]
    case 1 => [Digit(D2(bs[|bs|-1], c))]
    case _ => [Digit(D3(bs[|bs|-1], c)), Digit(D4(c))]
  }

  lemma {:induction false} EmittedSnoc(bs: seq<byte>, c: byte)
    ensures Emitted(bs + [c]) == Emitted(bs) + Completed(bs, c)
    decreases |bs|
  {
    hide Digit, D1, D2, D3, D4;
    if |bs| >= 3 {
      assert (bs + [c])[3..] == bs[3..] + [c];
      assert |bs| % 3 == |bs[3..]| % 3;
      assert |bs| % 3 != 0 ==> bs[3..][|bs[3..]|-1] == bs[|bs|-1];
      EmittedSnoc(bs[3..], c);
    } else {
      assert (bs + [c])[..|bs|] == bs;
      assert |bs| == 2 ==> (bs + [c])[3..] == [];
    }
  }

  /** What is left to write after the last byte. */
  function Tail(bs: seq<byte>): string {
    match |bs| % 3
    case 0 => ""
    case 1 => [Digit(D2(bs[|bs|-1], 0)), '=', '=']
    case _ => [Digit(D3(bs[|bs|-1], 0)), '=']
  }

  lemma {:induction false} EncodedSplit(bs: seq<byte>)
    ensures Encoded(bs) == Emitted(bs) + Tail(bs)
    decreases |bs|
  {
    hide Digit, D1, D2, D3, D4;
    if |bs| >= 3 {
      assert |bs| % 3 == |bs[3..]| % 3;
      assert |bs| % 3 != 0 ==> bs[3..][|bs[3..]|-1] == bs[|bs|-1];
      EncodedSplit(bs[3..]);
    }
  }

  // ---- The loop ----

  /** (v >> n) & 0x3F. */
  function Bits(v: nat, n: nat): sextet {
    v / Pow2(n) % 64
  }

  lemma SmallPowers()
    ensures Pow2(0) == 1 && Pow2(2) == 4 && Pow2(4) == 16 && Pow2(6) == 64
  {
  }

  lemma ShiftByte(a: nat, c: byte)
    ensures (a * 256 + c) / 4 % 64 == c / 4
    ensures (a * 256 + c) / 16 == a * 16 + c / 16
    ensures (a * 256 + c) / 64 == a * 4 + c / 64
    ensures (a * 256 + c) % 64 == c % 64
  {
    ModUnique(a * 256 + c, 4, a * 64 + c / 4, c % 4);
    ModUnique(a * 64 + c / 4, 64, a, c / 4);
    ModUnique(a * 256 + c, 16, a * 16 + c / 16, c % 16);
    ModUnique(a * 256 + c, 64, a * 4 + c / 64, c % 64);
  }

  lemma LowQuads(a: nat, x: nat)
    requires x < 16
    ensures (a * 16 + x) % 64 == a % 4 * 16 + x
  {
    ModUnique(a * 16 + x, 64, a / 4, a % 4 * 16 + x);
  }

  lemma LowPairs(a: nat, x: nat)
    requires x < 4
    ensures (a * 4 + x) % 64 == a % 16 * 4 + x
  {
    ModUnique(a * 4 + x, 64, a / 16, a % 16 * 4 + x);
  }

  /** The digits come from the last two bytes of the accumulator, so its overflow does not matter. */
  lemma BitsOf(a: nat, c: byte)
    ensures
      var v, last := a * 256 + c, a % 256;
      Bits(v, 2) == D1(c) && Bits(v, 4) == D2(last, c) && Bits(v, 6) == D3(last, c) && Bits(v, 0) == D4(c)
  {
    BitsAre(a * 256 + c);
    ShiftByte(a, c);
    LowQuads(a, c / 16);
    LowPairs(a, c / 64);
    LowByte(a);
    hide Bits;
  }

  lemma BitsAre(v: nat)
    ensures Bits(v, 0) == v % 64 && Bits(v, 2) == v / 4 % 64 && Bits(v, 4) == v / 16 % 64 && Bits(v, 6) == v / 64 % 64
  {
    SmallPowers();
    hide Pow2;
  }

  lemma LowByte(a: nat)
    ensures a % 256 % 4 == a % 4 && a % 256 % 16 == a % 16
  {
    var q, r := a / 256, a % 256;
    ModUnique(a, 4, 64 * q + r / 4, r % 4);
    ModUnique(a, 16, 16 * q + r / 16, r % 16);
  }

  /** What the final shift leaves: the last byte with eight zero bits below it. */
  lemma BitsOfTail(val: word)
    ensures Bits(val * 256 % UINT32, 4) == D2(val % 256, 0) && Bits(val * 256 % UINT32, 6) == D3(val % 256, 0)
  {
    hide Bits, D1, D2, D3, D4;
    Accumulate(val, 0);
    BitsOf(val % 0x100_0000, 0);
  }

  /** The accumulator after one more byte: a 32-bit shift and sum. */
  function Shift(val: word, c: byte): word {
    (val * 256 % UINT32 + c) % UINT32
  }

  lemma Accumulate(val: word, c: byte)
    ensures Shift(val, c) == val % 0x100_0000 * 256 + c
    ensures Shift(val, c) % 256 == c
    ensures val % 0x100_0000 % 256 == val % 256
  {
    var q, r := val / 0x100_0000, val % 0x100_0000;
    ModUnique(val * 256, UINT32, q, r * 256);
    ModUnique(r * 256 + c, UINT32, 0, r * 256 + c);
    ModUnique(r * 256 + c, 256, r, c);
    ModUnique(val, 256, q * 0x1_0000 + r / 256, r % 256);
  }

  /** The inner loop: writes every complete digit, one of them or two. */
  method EmitDigits(enc: string, val: word, valb: int) returns (enc': string, valb': int)
    requires valb == 2 || valb == 4 || valb == 6
    ensures valb != 6 ==> valb' == valb - 6 && enc' == enc + [Digit(Bits(val, valb))]
    ensures valb == 6 ==> valb' == -6 && enc' == enc + [Digit(Bits(val, 6)), Digit(Bits(val, 0))]
  {
    hide Bits, Digit;
    enc', valb' := enc, valb;
    while valb' >= 0
      invariant
        || (valb' == valb && enc' == enc)
        || (valb' == valb - 6 && enc' == enc + [Digit(Bits(val, valb))])
        || (valb == 6 && valb' == -6 && enc' == enc + [Digit(Bits(val, 6)), Digit(Bits(val, 0))])
      decreases valb'
    {
      enc' := enc' + [Digit(Bits(val, valb'))];
      valb' := valb' - 6;
    }
  }

  /** One byte read: the digits to write are those of the accumulator. */
  lemma ReadByte(bs: seq<byte>, val: word, c: byte)
    requires val % 256 == if |bs| > 0 then bs[|bs|-1] else 0
    ensures
      var v, r := Shift(val, c), |bs| % 3;
      && v % 256 == c
      && Emitted(bs + [c]) == Emitted(bs) +
         (if r == 2 then [Digit(Bits(v, 6)), Digit(Bits(v, 0))] else [Digit(Bits(v, if r == 0 then 2 else 4))])
  {
    hide Bits, Digit, D1, D2, D3, D4, Emitted, Shift;
    EmittedSnoc(bs, c);
    AccumulatorBits(val, c);
  }

  lemma AccumulatorBits(val: word, c: byte)
    ensures
      var v, last := Shift(val, c), val % 256;
      && v % 256 == c && Bits(v, 2) == D1(c) && Bits(v, 4) == D2(last, c)
      && Bits(v, 6) == D3(last, c) && Bits(v, 0) == D4(c)
  {
    hide Bits, D1, D2, D3, D4, Shift;
    Accumulate(val, c);
    BitsOf(val % 0x100_0000, c);
  }

  /** The loop over the bytes: val holds them, never masked, and valb + 6 is the number of bits not yet written. */
  method EncodeDigits(bs: seq<byte>) returns (enc: string, val: word, valb: int)
    ensures enc == Emitted(bs) && valb == -6 + 2 * (|bs| % 3)
    ensures |bs| > 0 ==> val % 256 == bs[|bs|-1]
  {
    hide Bits, Digit, Emitted, Shift;
    enc, val, valb := "", 0, -6;
    EmittedNothing();
    for i := 0 to |bs|
      invariant valb == -6 + 2 * (i % 3)
      invariant enc == Emitted(bs[..i])
      invariant val % 256 == if i > 0 then bs[i-1] else 0
    {
      ReadByte(bs[..i], val, bs[i]);
      val := Shift(val, bs[i]);
      enc, valb := EmitDigits(enc, val, valb + 8);
      assert bs[..i+1] == bs[..i] + [bs[i]];
    }
    assert bs[..|bs|] == bs;
  }

  /** The whole encoder: the digits, one more for the bits left over, and padding. */
  method Encode(bs: seq<byte>) returns (enc: string)
    ensures enc == Encoded(bs)
    ensures |enc| == 4 * ((|bs| + 2) / 3)
    ensures Decoded(enc) == Some(bs)
  {
    hide Bits, Digit, D1, D2, D3, D4, Emitted;
    var val, valb;
    enc, val, valb := EncodeDigits(bs);
    EncodedSplit(bs);
    EncodedLength(bs);
    if valb > -6 {
      BitsOfTail(val);
      enc := enc + [Digit(Bits(val * 256 % UINT32, valb + 8))];
    }
    ghost var missing := if |bs| % 3 == 0 then "" else if |bs| % 3 == 1 then "==" else "=";
    assert Encoded(bs) == enc + missing;
    hide Encoded, Tail;
    while |enc| % 4 != 0
      invariant Encoded(bs) == enc + missing && |missing| < 4
      invariant forall k :: 0 <= k < |missing| ==> missing[k] == '='
      decreases |missing|
    {
      assert missing == ['='] + missing[1..];
      enc := enc + ['='];
      missing := missing[1..];
    }
    assert missing == "";
    DecodeEncoded(bs);
  }

  lemma EmittedNothing()
    ensures Emitted([]) == ""
  {
  }

  // ---- Decoding ----

  function DigitValue(c: char): (v: Option<sextet>) {
    if 'A' <= c <= 'Z' then Some(c as int - 'A' as int)
    else if 'a' <= c <= 'z' then Some(c as int - 'a' as int + 26)
    else if '0' <= c <= '9' then Some(c as int - '0' as int + 52)
    else if c == '+' then Some(62)
    else if c == '/' then Some(63)
    else None
  }

  /** Reads groups of four digits; '=' may only end the last one, and the bits it leaves over must be zero. */
  function Decoded(s: string): Option<seq<byte>> {
    if |s| == 0 then Some([])
    else if |s| < 4 then None
    else
      match (DigitValue(s[0]), DigitValue(s[1]), DigitValue(s[2]), DigitValue(s[3]))
      case (Some(a), Some(b), Some(c), Some(d)) =>
        (match Decoded(s[4..])
         case None => None
         case Some(rest) => Some([a * 4 + b / 16, b % 16 * 16 + c / 4, c % 4 * 64 + d] + rest))
      case (Some(a), Some(b), Some(c), None) =>
        if s[3..] == "=" && c % 4 == 0 then Some([a * 4 + b / 16, b % 16 * 16 + c / 4]) else None
      case (Some(a), Some(b), None, None) =>
        if s[2..] == "==" && b % 16 == 0 then Some([a * 4 + b / 16]) else None
      case _ => None
  }

  lemma DigitValueOf(v: sextet)
    ensures DigitValue(Digit(v)) == Some(v)
  {
    if v < 26 {
      UpperAt(v);
    } else if v < 52 {
      LowerAt(v - 26);
    }
  }

  lemma UpperAt(i: nat)
    requires i < 26
    ensures UPPER[i] as int == 'A' as int + i
  {
  }

  lemma LowerAt(i: nat)
    requires i < 26
    ensures LOWER[i] as int == 'a' as int + i
  {
  }

  /** Three bytes are put together again from their four digits. */
  lemma Regroup(b0: byte, b1: byte, b2: byte)
    ensures D1(b0) * 4 + D2(b0, b1) / 16 == b0
    ensures D2(b0, b1) % 16 * 16 + D3(b1, b2) / 4 == b1
    ensures D3(b1, b2) % 4 * 64 + D4(b2) == b2
  {
    assert D2(b0, b1) / 16 == b0 % 4 && D2(b0, b1) % 16 == b1 / 16;
    assert D3(b1, b2) / 4 == b1 % 16 && D3(b1, b2) % 4 == b2 / 64;
  }

  /** A full group in front of a text that decodes. */
  lemma DecodeFull(b0: byte, b1: byte, b2: byte, t: string)
    requires Decoded(t).Some?
    ensures
      var group := [Digit(D1(b0)), Digit(D2(b0, b1)), Digit(D3(b1, b2)), Digit(D4(b2))];
      Decoded(group + t) == Some([b0, b1, b2] + Decoded(t).value)
  {
    hide Digit, DigitValue, D1, D2, D3, D4;
    DigitValueOf(D1(b0));
    DigitValueOf(D2(b0, b1));
    DigitValueOf(D3(b1, b2));
    DigitValueOf(D4(b2));
    Regroup(b0, b1, b2);
    var group := [Digit(D1(b0)), Digit(D2(b0, b1)), Digit(D3(b1, b2)), Digit(D4(b2))];
    assert (group + t)[4..] == t;
  }

  lemma {:induction false} DecodeEncoded(bs: seq<byte>)
    ensures Decoded(Encoded(bs)) == Some(bs)
    decreases |bs|
  {
    hide Digit, DigitValue, D1, D2, D3, D4;
    NotADigit();
    var s := Encoded(bs);
    if |bs| == 1 {
      DigitValueOf(D1(bs[0]));
      DigitValueOf(D2(bs[0], 0));
      assert s == [Digit(D1(bs[0])), Digit(D2(bs[0], 0)), '=', '='];
      Regroup(bs[0], 0, 0);
      assert s[2..] == "==" && bs == [bs[0]];
    } else if |bs| == 2 {
      DigitValueOf(D1(bs[0]));
      DigitValueOf(D2(bs[0], bs[1]));
      DigitValueOf(D3(bs[1], 0));
      Regroup(bs[0], bs[1], 0);
      assert s == [Digit(D1(bs[0])), Digit(D2(bs[0], bs[1])), Digit(D3(bs[1], 0)), '='];
      assert s[3..] == "=" && bs == [bs[0], bs[1]];
    } else if |bs| >= 3 {
      DecodeEncoded(bs[3..]);
      DecodeFull(bs[0], bs[1], bs[2], Encoded(bs[3..]));
      assert bs == [bs[0], bs[1], bs[2]] + bs[3..];
    }
  }

  lemma DigitOfValue(c: char)
    ensures DigitValue(c).Some? ==> Digit(DigitValue(c).value) == c
  {
    if 'A' <= c <= 'Z' {
      UpperAt(c as int - 'A' as int);
    } else if 'a' <= c <= 'z' {
      LowerAt(c as int - 'a' as int);
    }
  }

  /** The digits of a group are put together again from its bytes. */
  lemma Ungroup(a: sextet, b: sextet, c: sextet, d: sextet)
    ensures
      var b0, b1, b2 := a * 4 + b / 16, b % 16 * 16 + c / 4, c % 4 * 64 + d;
      && D1(b0) == a && D2(b0, b1) == b && D3(b1, b2) == c && D4(b2) == d
      && (c % 4 == 0 ==> D3(b1, 0) == c) && (b % 16 == 0 ==> D2(b0, 0) == b)
  {
  }

  /** Encoding undoes decoding: every text that decodes is the encoding of what it decodes to. */
  lemma {:induction false} EncodeDecoded(s: string)
    ensures Decoded(s).Some? ==> Encoded(Decoded(s).value) == s
    decreases |s|
  {
    hide Digit, DigitValue, D1, D2, D3, D4;
    if |s| >= 4 && Decoded(s).Some? {
      var bs := Decoded(s).value;
      DigitOfValue(s[0]);
      DigitOfValue(s[1]);
      DigitOfValue(s[2]);
      DigitOfValue(s[3]);
      if DigitValue(s[2]).None? {
        Ungroup(DigitValue(s[0]).value, DigitValue(s[1]).value, 0, 0);
        assert s == s[..2] + s[2..];
      } else if DigitValue(s[3]).None? {
        Ungroup(DigitValue(s[0]).value, DigitValue(s[1]).value, DigitValue(s[2]).value, 0);
        assert s == s[..3] + s[3..];
      } else {
        Ungroup(DigitValue(s[0]).value, DigitValue(s[1]).value, DigitValue(s[2]).value, DigitValue(s[3]).value);
        EncodeDecoded(s[4..]);
        assert bs[3..] == Decoded(s[4..]).value;
        assert s == s[..4] + s[4..];
      }
    }
  }

  /** The test vectors for "f", "fo", "foo" and "foobar" in section 10 of RFC 4648. */
  lemma Vectors()
    ensures Encoded([102]) == "Zg==" && Encoded([102, 111]) == "Zm8="
    ensures Encoded([102, 111, 111]) == "Zm9v" && Encoded([102, 111, 111, 98, 97, 114]) == "Zm9vYmFy"
  {
    OneVector();
    TwoVector();
    ThreeVector("Zm9v", [102, 111, 111]);
    ThreeVector("YmFy", [98, 97, 114]);
    hide *;
    GroupsJoin([102, 111, 111], [98, 97, 114]);
    assert [102, 111, 111] + [98, 97, 114] == [102, 111, 111, 98, 97, 114];
    assert "Zm9v" + "YmFy" == "Zm9vYmFy";
  }

  lemma OneVector()
    ensures Encoded([102]) == "Zg=="
  {
    assert "Zg=="[2..] == "==";
    EncodeDecoded("Zg==");
  }

  lemma TwoVector()
    ensures Encoded([102, 111]) == "Zm8="
  {
    assert "Zm8="[3..] == "=";
    EncodeDecoded("Zm8=");
  }

  lemma ThreeVector(s: string, bs: seq<byte>)
    requires |s| == 4 && |bs| == 3
    requires forall i :: 0 <= i < 4 ==> DigitValue(s[i]).Some?
    requires DigitValue(s[0]).value == D1(bs[0]) && DigitValue(s[1]).value == D2(bs[0], bs[1])
    requires DigitValue(s[2]).value == D3(bs[1], bs[2]) && DigitValue(s[3]).value == D4(bs[2])
    ensures Encoded(bs) == s
  {
    hide Digit, DigitValue, D1, D2, D3, D4;
    DigitOfValue(s[0]);
    DigitOfValue(s[1]);
    DigitOfValue(s[2]);
    DigitOfValue(s[3]);
    assert bs[3..] == [] && Encoded([]) == "";
  }

  lemma GroupsJoin(a: seq<byte>, b: seq<byte>)
    requires |a| == 3
    ensures Encoded(a + b) == Encoded(a) + Encoded(b)
  {
    hide Digit, D1, D2, D3, D4;
    assert (a + b)[3..] == b && a[3..] == [] && Encoded([]) == "";
  }

  lemma NotADigit()
    ensures DigitValue('=') == None
  {
  }
}
