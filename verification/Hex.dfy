/** Hex text as the block builder of src/submit/gbt_submitter.cc writes it, and as any reader takes it. */
module Hex {
  import opened Options
  import opened Words

  type nibble = x: int | 0 <= x < 16

  const DIGITS: string := "0123456789abcdef"

  function Digit(v: nibble): char { DIGITS[v] }

  /** The value of a digit of either case. */
  function DigitValue(c: char): Option<nibble> {
    if '0' <= c <= '9' then Some(c as int - '0' as int)
    else if 'a' <= c <= 'f' then Some(c as int - 'a' as int + 10)
    else if 'A' <= c <= 'F' then Some(c as int - 'A' as int + 10)
    else None
  }

  function HexByte(b: byte): (s: string)
    ensures |s| == 2
  {
    [Digit(b / 16), Digit(b % 16)]
  }

  function ToHex(bs: seq<byte>): (s: string)
    ensures |s| == 2 * |bs|
  {
    if |bs| == 0 then "" else HexByte(bs[0]) + ToHex(bs[1..])
  }

  /** The bytes of a hex string, if it has an even number of digits and nothing else. */
  function FromHex(s: string): Option<seq<byte>> {
    if |s| == 0 then Some([])
    else if |s| == 1 then None
    else
      var hi :- DigitValue(s[0]);
      var lo :- DigitValue(s[1]);
      var rest :- FromHex(s[2..]);
      Some([hi * 16 + lo] + rest)
  }

  lemma DigitValueOf(v: nibble)
    ensures DigitValue(Digit(v)) == Some(v)
  {
  }

  lemma {:induction false} FromToHex(bs: seq<byte>)
    ensures FromHex(ToHex(bs)) == Some(bs)
  {
    hide Digit, DigitValue;
    if |bs| > 0 {
      DigitValueOf(bs[0] / 16);
      DigitValueOf(bs[0] % 16);
      assert ToHex(bs)[2..] == ToHex(bs[1..]);
      FromToHex(bs[1..]);
      assert bs == [bs[0]] + bs[1..];
      assert bs[0] / 16 * 16 + bs[0] % 16 == bs[0];
    }
  }

  lemma {:induction false} FromHexLength(s: string)
    ensures FromHex(s).Some? ==> |s| == 2 * |FromHex(s).value|
  {
    hide DigitValue;
    if |s| >= 2 {
      FromHexLength(s[2..]);
    }
  }

  /** A text of digits decodes exactly when their number is even. */
  lemma {:induction false} FromHexDigits(s: string)
    requires forall i :: 0 <= i < |s| ==> DigitValue(s[i]).Some?
    ensures FromHex(s).Some? <==> |s| % 2 == 0
  {
    hide DigitValue;
    if |s| >= 2 {
      FromHexDigits(s[2..]);
    }
  }

  /** Texts that decode on their own decode together. */
  lemma {:induction false} FromHexConcat(s: string, t: string)
    requires FromHex(s).Some? && FromHex(t).Some?
    ensures FromHex(s + t) == Some(FromHex(s).value + FromHex(t).value)
  {
    hide DigitValue;
    if |s| == 0 {
      assert s + t == t;
      assert [] + FromHex(t).value == FromHex(t).value;
    } else {
      assert (s + t)[2..] == s[2..] + t;
      FromHexConcat(s[2..], t);
      var first, rest := FromHex(s).value[..1], FromHex(s[2..]).value;
      assert FromHex(s).value == first + rest;
      assert (first + rest) + FromHex(t).value == first + (rest + FromHex(t).value);
    }
  }

  /** The digits of byte i: lower case, the higher half first. */
  lemma {:induction false} ToHexAt(bs: seq<byte>, i: nat)
    requires i < |bs|
    ensures
      var hi, lo := bs[i] / 16, bs[i] % 16;
      && ToHex(bs)[2*i] as int == (if hi < 10 then '0' as int + hi else 'a' as int + hi - 10)
      && ToHex(bs)[2*i+1] as int == (if lo < 10 then '0' as int + lo else 'a' as int + lo - 10)
  {
    DigitCode(bs[i] / 16);
    DigitCode(bs[i] % 16);
    hide Digit;
    if i > 0 {
      ToHexAt(bs[1..], i - 1);
    }
  }

  lemma DigitCode(v: nibble)
    ensures Digit(v) as int == if v < 10 then '0' as int + v else 'a' as int + v - 10
  {
  }

  lemma HexOne(b: byte)
    ensures ToHex([]) == "" && ToHex([b]) == HexByte(b)
  {
    hide HexByte;
    assert [b][1..] == [];
    assert ToHex([b]) == HexByte(b) + ToHex([]);
    assert HexByte(b) + "" == HexByte(b);
  }

  lemma {:induction false} HexSnoc(bs: seq<byte>, b: byte)
    ensures ToHex(bs + [b]) == ToHex(bs) + HexByte(b)
  {
    hide HexByte;
    if |bs| == 0 {
      HexOne(b);
      assert bs == [] && bs + [b] == [b];
      assert "" + HexByte(b) == HexByte(b);
    } else {
      var all := bs + [b];
      assert all[0] == bs[0] && all[1..] == bs[1..] + [b];
      HexSnoc(bs[1..], b);
      assert ToHex(all) == HexByte(bs[0]) + (ToHex(bs[1..]) + HexByte(b));
    }
  }
}
