/** CompactSize integers: encodeVarIntHex of src/submit/gbt_submitter.cc and a reader of them. */
module CompactSize {
  import opened Arithmetic
  import opened Hex
  import opened Options
  import opened Words

  /** The shortest of the four forms. */
  function Encode(v: word64): (bs: seq<byte>) {
    if v < 0xfd then [v]
    else if v <= 0xffff then [0xfd] + LE(v, 2)
    else if v <= 0xffff_ffff then [0xfe] + LE(v, 4)
    else [0xff] + LE(v, 8)
  }

  /** The number at the front of bs and what follows it; forms longer than needed are refused. */
  function Read(bs: seq<byte>): Option<(nat, seq<byte>)> {
    if |bs| == 0 then None
    else if bs[0] < 0xfd then Some((bs[0], bs[1..]))
    else
      var n := if bs[0] == 0xfd then 2 else if bs[0] == 0xfe then 4 else 8;
      var least := if bs[0] == 0xfd then 0xfd else if bs[0] == 0xfe then 0x1_0000 else 0x1_0000_0000;
      if |bs| < 1 + n || LEVal(bs[1..1+n]) < least then None else Some((LEVal(bs[1..1+n]), bs[1+n..]))
  }

  /** emitLE: the low `bytes` bytes of v, lowest first. */
  method EmitLE(oss: string, v: word64, bytes: nat) returns (oss': string)
    requires bytes <= 8
    ensures oss' == oss + ToHex(LE(v, bytes))
  {
    hide HexByte;
    oss' := oss;
    assert LE(v, 0) == [] && ToHex([]) == "";
    for i := 0 to bytes
      invariant oss' == oss + ToHex(LE(v, i))
    {
      var b := v / Pow256(i) % 256;
      LESnoc(v, i);
      HexSnoc(LE(v, i), b);
      oss' := oss' + HexByte(b);
    }
  }

  lemma {:induction false} LESnoc(x: nat, n: nat)
    ensures LE(x, n + 1) == LE(x, n) + [x / Pow256(n) % 256]
    decreases n
  {
    if n == 0 {
      assert LE(x, 1) == [x % 256] + LE(x / 256, 0);
      assert x / 1 == x;
    } else {
      LESnoc(x / 256, n - 1);
      DivPow256(x, n);
    }
  }

  /** Byte i of a little-endian number is its i-th digit to the base 256. */
  lemma {:induction false} LEAt(x: nat, n: nat, i: nat)
    requires i < n
    ensures LE(x, n)[i] == x / Pow256(i) % 256
    decreases n
  {
    LESnoc(x, n - 1);
    if i < n - 1 {
      LEAt(x, n - 1, i);
    }
  }

  /** The size of each form, its marker, and the digits of the value behind it, lowest first. */
  lemma FormIs(v: word64)
    ensures
      var bs := Encode(v);
      && |bs| == (if v < 0xfd then 1 else if v <= 0xffff then 3 else if v <= 0xffff_ffff then 5 else 9)
      && (|bs| == 1 ==> bs[0] == v) && (|bs| == 3 ==> bs[0] == 0xfd)
      && (|bs| == 5 ==> bs[0] == 0xfe) && (|bs| == 9 ==> bs[0] == 0xff)
      && forall i :: 1 <= i < |bs| ==> bs[i] == v / Pow256(i - 1) % 256
  {
    var bs := Encode(v);
    forall i | 1 <= i < |bs|
      ensures bs[i] == v / Pow256(i - 1) % 256
    {
      LEAt(v, |bs| - 1, i - 1);
    }
  }

  lemma DivPow256(x: nat, n: nat)
    requires n > 0
    ensures x / Pow256(n) == x / 256 / Pow256(n - 1)
  {
    DivDiv(x, 256, Pow256(n - 1));
  }

  /** encodeVarIntHex. */
  method EncodeVarIntHex(v: word64) returns (hex: string)
    ensures hex == ToHex(Encode(v))
    ensures FromHex(hex) == Some(Encode(v)) && Read(Encode(v)) == Some((v as nat, []))
  {
    hide ToHex, HexByte;
    if v < 0xfd {
      hex := EmitLE("", v, 1);
      assert LE(v, 1) == [v] by { OneByte(v); }
      assert "" + ToHex([v]) == ToHex([v]);
    } else if v <= 0xffff {
      hex := EmitLE("fd", v, 2);
      assert ToHex([0xfd] + LE(v, 2)) == "fd" + ToHex(LE(v, 2)) by { Marker(0xfd, LE(v, 2)); }
    } else if v <= 0xffff_ffff {
      hex := EmitLE("fe", v, 4);
      assert ToHex([0xfe] + LE(v, 4)) == "fe" + ToHex(LE(v, 4)) by { Marker(0xfe, LE(v, 4)); }
    } else {
      hex := EmitLE("ff", v, 8);
      assert ToHex([0xff] + LE(v, 8)) == "ff" + ToHex(LE(v, 8)) by { Marker(0xff, LE(v, 8)); }
    }
    hide Encode, Read;
    FromToHex(Encode(v));
    ReadEncode(v, []);
    assert Encode(v) + [] == Encode(v);
  }

  lemma OneByte(v: byte)
    ensures LE(v, 1) == [v]
  {
    assert LE(v, 1) == [v] + LE(0, 0);
  }

  lemma Marker(m: byte, bs: seq<byte>)
    ensures ToHex([m] + bs) == HexByte(m) + ToHex(bs)
    ensures HexByte(0xfd) == "fd" && HexByte(0xfe) == "fe" && HexByte(0xff) == "ff"
  {
    assert ([m] + bs)[1..] == bs;
  }

  /** Reading undoes writing for every 64-bit value, whatever follows it. */
  lemma ReadEncode(v: word64, rest: seq<byte>)
    ensures Read(Encode(v) + rest) == Some((v as nat, rest))
  {
    Powers256();
    var bs := Encode(v) + rest;
    if v < 0xfd {
      assert bs[1..] == rest;
    } else {
      var n := if v <= 0xffff then 2 else if v <= 0xffff_ffff then 4 else 8;
      LERoundTrip(v, n);
      assert bs[1..1+n] == LE(v, n) && bs[1+n..] == rest;
    }
  }

  /** And writing undoes reading, so every value has one form. */
  lemma EncodeRead(bs: seq<byte>)
    ensures Read(bs).Some? ==>
      var (v, rest) := Read(bs).value;
      v < UINT64 && bs == Encode(v) + rest
  {
    if Read(bs).Some? && bs[0] >= 0xfd {
      var n := if bs[0] == 0xfd then 2 else if bs[0] == 0xfe then 4 else 8;
      LEOfVal(bs[1..1+n]);
      Powers256();
      assert bs == [bs[0]] + bs[1..1+n] + bs[1+n..];
    } else if Read(bs).Some? {
      assert bs == [bs[0]] + bs[1..];
    }
  }

  lemma {:induction false} LEOfVal(bs: seq<byte>)
    ensures LEVal(bs) < Pow256(|bs|) && LE(LEVal(bs), |bs|) == bs
  {
    if |bs| > 0 {
      LEOfVal(bs[1..]);
      assert LEVal(bs) % 256 == bs[0] && LEVal(bs) / 256 == LEVal(bs[1..]);
    }
  }
}
