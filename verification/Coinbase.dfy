/** The coinbase transaction built by src/submit/gbt_submitter.cc, and a parser that undoes it. */
module Coinbase {
  import opened Options
  import opened Words
  import CompactSize

  // ---- Bytes of the transaction ----

  /** What a coinbase pays: the value, the payout script and the witness commitment. */
  datatype Payment = Payment(value: word64, script: seq<byte>, commitment: seq<byte>)

  /** The bytes of height without leading zero bytes, lowest first. */
  function ShortLE(height: nat): (le: seq<byte>)
  {
    if height == 0 then [] else [height % 256] + ShortLE(height / 256)
  }

  function HeightBytes(height: word): (le: seq<byte>)
    ensures 1 <= |le| <= 4
  {
    ShortLength(height, 4);
    Powers256();
    if height == 0 then [0] else ShortLE(height)
  }

  lemma {:induction false} ShortLength(height: nat, n: nat)
    requires height < Pow256(n)
    ensures |ShortLE(height)| <= n && (height > 0 ==> |ShortLE(height)| > 0)
  {
    if height > 0 {
      ShortLength(height / 256, n - 1);
    }
  }

  lemma {:induction false} ShortRoundTrip(height: nat)
    ensures LEVal(ShortLE(height)) == height
  {
    if height > 0 {
      ShortRoundTrip(height / 256);
      assert ShortLE(height)[1..] == ShortLE(height / 256);
    }
  }

  lemma {:induction false} ShortIsShortest(bs: seq<byte>)
    ensures |ShortLE(LEVal(bs))| <= |bs|
  {
    if |bs| > 0 {
      ShortIsShortest(bs[1..]);
      assert LEVal(bs) / 256 == LEVal(bs[1..]);
    }
  }

  lemma {:induction false} ShortEnd(height: nat)
    ensures height > 0 ==> |ShortLE(height)| > 0 && ShortLE(height)[|ShortLE(height)|-1] != 0
  {
    if height > 0 {
      ShortEnd(height / 256);
    }
  }

  /**
   * The bytes of a height stand for it, lowest first, and no shorter string of bytes does; zero is one zero byte. The
   * highest byte of any other height is not zero.
   */
  lemma HeightIs(height: word)
    ensures LEVal(HeightBytes(height)) == height
    ensures height == 0 ==> HeightBytes(height) == [0]
    ensures height > 0 ==> HeightBytes(height)[|HeightBytes(height)|-1] != 0
    ensures height > 0 ==> forall bs: seq<byte> :: LEVal(bs) == height ==> |HeightBytes(height)| <= |bs|
  {
    ShortRoundTrip(height);
    ShortEnd(height);
    forall bs: seq<byte> | LEVal(bs) == height && height > 0
      ensures |HeightBytes(height)| <= |bs|
    {
      ShortIsShortest(bs);
    }
  }

  /** A push of data by its length byte. */
  function Push(data: seq<byte>): seq<byte>
    requires |data| < 256
  {
    [|data|] + data
  }

  /** A script of the height and a tag that is announced by the bytes `lead`; without a tag there is no lead. */
  function ScriptSig(height: word, lead: seq<byte>, tag: seq<byte>): seq<byte> {
    Push(HeightBytes(height)) + (if |tag| == 0 then [] else lead + tag)
  }

  const VERSION: seq<byte> := [1, 0, 0, 0]
  const ONES: seq<byte> := [0xff, 0xff, 0xff, 0xff]
  const COMMITMENT_TAG: seq<byte> := [0x6a, 0x24, 0xaa, 0x21, 0xa9, 0xed]

  function Outputs(p: Payment): seq<byte>
    requires |p.script| < UINT64
  {
    CompactSize.Encode(2) + (LE(p.value, 8) + (CompactSize.Encode(|p.script|) + (p.script +
    (Zeros(8) + (CompactSize.Encode(38) + (COMMITMENT_TAG + (p.commitment + Zeros(4))))))))
  }

  /** A coinbase with any script. */
  function Transaction(sig: seq<byte>, p: Payment): seq<byte>
    requires |sig| < UINT64 && |p.script| < UINT64
  {
    VERSION + (CompactSize.Encode(1) + (Zeros(32) + (ONES + (CompactSize.Encode(|sig|) + (sig + (ONES + Outputs(p)))))))
  }

  /** The bytes behind the script. */
  lemma PaymentLayout(p: Payment)
    requires |p.script| < UINT64
    ensures ONES + Outputs(p) ==
      [255, 255, 255, 255, 2] + LE(p.value, 8) + CompactSize.Encode(|p.script|) + p.script + Zeros(8) +
      [38, 0x6a, 0x24, 0xaa, 0x21, 0xa9, 0xed] + p.commitment + Zeros(4)
  {
    SmallSizes();
    hide LE, Zeros, CompactSize.Encode, ONES, COMMITMENT_TAG;
    var first, last := [255, 255, 255, 255, 2], [38, 0x6a, 0x24, 0xaa, 0x21, 0xa9, 0xed];
    var v, n, s := LE(p.value, 8), CompactSize.Encode(|p.script|), p.script;
    var z, c, end := Zeros(8), p.commitment, Zeros(4);
    var r4 := last + (c + end);
    CommitmentFront(c + end);
    OnesFront(v + (n + (s + (z + r4))));
    assert ONES + Outputs(p) == first + (v + (n + (s + (z + r4))));
    hide Outputs;
    Flatten(first, v, n, s, z, r4);
    Assoc(first + v + n + s + z, last, c + end);
    Assoc(first + v + n + s + z + last, c, end);
  }

  lemma SmallSizes()
    ensures CompactSize.Encode(1) == [1] && CompactSize.Encode(2) == [2] && CompactSize.Encode(38) == [38]
  {
  }

  lemma CommitmentFront(rest: seq<byte>)
    ensures [38] + (COMMITMENT_TAG + rest) == [38, 0x6a, 0x24, 0xaa, 0x21, 0xa9, 0xed] + rest
  {
  }

  lemma OnesFront(rest: seq<byte>)
    ensures ONES + ([2] + rest) == [255, 255, 255, 255, 2] + rest
  {
  }

  lemma Assoc(a: seq<byte>, b: seq<byte>, c: seq<byte>)
    ensures a + (b + c) == a + b + c
  {
  }

  lemma Flatten(a: seq<byte>, b: seq<byte>, c: seq<byte>, d: seq<byte>, e: seq<byte>, f: seq<byte>)
    ensures a + (b + (c + (d + (e + f)))) == a + b + c + d + e + f
  {
    assert a + (b + (c + (d + (e + f)))) == (a + b) + (c + (d + (e + f)));
    assert (a + b) + (c + (d + (e + f))) == (a + b + c) + (d + (e + f));
    assert (a + b + c) + (d + (e + f)) == (a + b + c + d) + (e + f);
  }

  /** Every byte of a transaction in order; the sizes and the value are little-endian numbers. */
  lemma Layout(sig: seq<byte>, p: Payment)
    requires |sig| < UINT64 && |p.script| < UINT64
    ensures Transaction(sig, p) ==
      [1, 0, 0, 0, 1] + Zeros(32) + [255, 255, 255, 255] + CompactSize.Encode(|sig|) + sig +
      ([255, 255, 255, 255, 2] + LE(p.value, 8) + CompactSize.Encode(|p.script|) + p.script + Zeros(8) +
       [38, 0x6a, 0x24, 0xaa, 0x21, 0xa9, 0xed] + p.commitment + Zeros(4))
  {
    PaymentLayout(p);
    SmallSizes();
    hide LE, Zeros, CompactSize.Encode, Outputs;
    var n, rest := CompactSize.Encode(|sig|), ONES + Outputs(p);
    var tail := Zeros(32) + (ONES + (n + (sig + rest)));
    assert VERSION + ([1] + tail) == [1, 0, 0, 0, 1] + tail;
    hide VERSION;
    Flatten([1, 0, 0, 0, 1], Zeros(32), ONES, n, sig, rest);
  }

  // ---- The parser ----

  function Take(bs: seq<byte>, n: nat): Option<(seq<byte>, seq<byte>)> {
    if |bs| < n then None else Some((bs[..n], bs[n..]))
  }

  function Expect(bs: seq<byte>, what: seq<byte>): Option<seq<byte>> {
    if what <= bs then Some(bs[|what|..]) else None
  }

  function ExpectSize(bs: seq<byte>, n: nat): Option<seq<byte>> {
    var (size, rest) :- CompactSize.Read(bs);
    if size == n then Some(rest) else None
  }

  const OP_PUSHDATA1 := 76
  const OP_PUSHDATA2 := 77
  const OP_PUSHDATA4 := 78

  /**
   * The size of a push opcode with its operand, and the length of the data it announces: an opcode up to 75 is the
   * length, and the next three are followed by it in one, two or four bytes, lowest first.
   */
  function ReadLength(bs: seq<byte>): Option<(nat, nat)> {
    if |bs| == 0 then None
    else if bs[0] <= 75 then Some((1, bs[0]))
    else if bs[0] == OP_PUSHDATA1 && |bs| >= 2 then Some((2, LEVal(bs[1..2])))
    else if bs[0] == OP_PUSHDATA2 && |bs| >= 3 then Some((3, LEVal(bs[1..3])))
    else if bs[0] == OP_PUSHDATA4 && |bs| >= 5 then Some((5, LEVal(bs[1..5])))
    else None
  }

  /** The data of the push at the front of bs, and what follows it. */
  function ReadPush(bs: seq<byte>): Option<(seq<byte>, seq<byte>)> {
    var (size, n) :- ReadLength(bs);
    if size <= |bs| then Take(bs[size..], n) else None
  }

  /** These bytes are a push opcode for n bytes of data, with its operand and nothing else. */
  predicate Announces(lead: seq<byte>, n: nat) {
    ReadLength(lead) == Some((|lead|, n))
  }

  /** Height and tag of a coinbase script. */
  function ParseSig(sig: seq<byte>): Option<(nat, seq<byte>)> {
    var (height, rest) :- ReadPush(sig);
    if |rest| == 0 then Some((LEVal(height), []))
    else
      var (tag, end) :- ReadPush(rest);
      if |end| == 0 then Some((LEVal(height), tag)) else None
  }

  /** Value, payout script and commitment; nothing may follow the lock time. */
  function ParseOutputs(bs: seq<byte>): Option<(nat, seq<byte>, seq<byte>)> {
    var b1 :- ExpectSize(bs, 2);
    var (value, b2) :- Take(b1, 8);
    var (size, b3) :- CompactSize.Read(b2);
    var (script, b4) :- Take(b3, size);
    var b5 :- Expect(b4, Zeros(8));
    var b6 :- ExpectSize(b5, 38);
    var b7 :- Expect(b6, COMMITMENT_TAG);
    var (commitment, b8) :- Take(b7, 32);
    if b8 == Zeros(4) then Some((LEVal(value), script, commitment)) else None
  }

  /** A coinbase parsed field by field: height, tag, value, script and commitment. */
  function Parse(bs: seq<byte>): Option<(nat, seq<byte>, nat, seq<byte>, seq<byte>)> {
    var b1 :- Expect(bs, VERSION);
    var b2 :- ExpectSize(b1, 1);
    var b3 :- Expect(b2, Zeros(32));
    var b4 :- Expect(b3, ONES);
    var (size, b5) :- CompactSize.Read(b4);
    var (sig, b6) :- Take(b5, size);
    var (height, tag) :- ParseSig(sig);
    var b7 :- Expect(b6, ONES);
    var (value, script, commitment) :- ParseOutputs(b7);
    Some((height, tag, value, script, commitment))
  }

  lemma ExpectFront(what: seq<byte>, rest: seq<byte>)
    ensures Expect(what + rest, what) == Some(rest)
  {
    assert (what + rest)[|what|..] == rest;
  }

  lemma TakeFront(front: seq<byte>, rest: seq<byte>)
    ensures Take(front + rest, |front|) == Some((front, rest))
  {
    assert (front + rest)[..|front|] == front && (front + rest)[|front|..] == rest;
  }

  lemma ExpectSizeFront(n: word64, rest: seq<byte>)
    ensures ExpectSize(CompactSize.Encode(n) + rest, n) == Some(rest)
  {
    CompactSize.ReadEncode(n, rest);
  }

  /** Data is read back exactly when the bytes in front of it announce it. */
  lemma ReadAnnounced(lead: seq<byte>, data: seq<byte>, rest: seq<byte>)
    requires |lead| > 0
    ensures Announces(lead, |data|) ==> ReadPush(lead + (data + rest)) == Some((data, rest))
    ensures ReadPush(lead + data) == Some((data, [])) ==> Announces(lead, |data|)
  {
    SamePrefix(lead, data + rest);
    SamePrefix(lead, data);
    TakeFront(data, rest);
    hide ReadLength;
    assert (lead + (data + rest))[|lead|..] == data + rest;
  }

  /** An opcode that lies inside the front of a text is read from the front alone. */
  lemma SamePrefix(lead: seq<byte>, rest: seq<byte>)
    requires |lead| > 0
    ensures ReadLength(lead).Some? ==> ReadLength(lead + rest) == ReadLength(lead)
    ensures ReadLength(lead + rest).Some? && ReadLength(lead + rest).value.0 <= |lead| ==>
      ReadLength(lead + rest) == ReadLength(lead)
  {
    hide LEVal;
    var bs := lead + rest;
    assert |lead| >= 2 ==> bs[1..2] == lead[1..2];
    assert |lead| >= 3 ==> bs[1..3] == lead[1..3];
    assert |lead| >= 5 ==> bs[1..5] == lead[1..5];
  }

  /** Height and tag are read back exactly when there is no tag or the bytes in front of it announce it. */
  lemma ParseScriptSig(height: word, lead: seq<byte>, tag: seq<byte>)
    requires |lead| > 0
    ensures ParseSig(ScriptSig(height, lead, tag)) == Some((height as nat, tag)) <==>
      |tag| == 0 || Announces(lead, |tag|)
  {
    hide ReadPush, HeightBytes, Announces, LEVal, Push;
    var rest := if |tag| == 0 then [] else lead + tag;
    HeightRead(height, rest);
    assert ScriptSig(height, lead, tag) == Push(HeightBytes(height)) + rest;
    ReadAnnounced(lead, tag, []);
    assert tag + [] == tag;
    var read := ReadPush(rest);
    assert read.Some? && |read.value.1| == 0 ==> read.value.1 == [];
    assert ParseSig(ScriptSig(height, lead, tag)) ==
      if |rest| == 0 then Some((height as nat, []))
      else if read.Some? && |read.value.1| == 0 then Some((height as nat, read.value.0)) else None;
  }

  lemma HeightRead(height: word, rest: seq<byte>)
    ensures ReadPush(Push(HeightBytes(height)) + rest) == Some((HeightBytes(height), rest))
    ensures LEVal(HeightBytes(height)) == height
  {
    var h := HeightBytes(height);
    assert LEVal(h) == height by { ShortRoundTrip(height); }
    assert Announces([|h|], |h|);
    hide ReadPush, HeightBytes, Announces, LEVal;
    ReadAnnounced([|h|], h, rest);
    assert Push(h) + rest == [|h|] + (h + rest);
  }

  /** The shortest tag that is too long can even be read as another one: its own bytes behind the first. */
  lemma MisreadTag(height: word, tag: seq<byte>)
    requires |tag| == 76 && tag[0] == 75
    ensures ParseSig(ScriptSig(height, [76], tag)) == Some((height as nat, tag[1..]))
  {
    assert Announces([76, 75], 75) by { assert [76, 75][1..2] == [75] && [75][1..] == []; }
    hide ReadPush, HeightBytes, Push, LEVal;
    HeightRead(height, [76] + tag);
    ReadAnnounced([76, 75], tag[1..], []);
    assert [76] + tag == [76, 75] + (tag[1..] + []);
  }

  lemma ParseOutputsBack(p: Payment)
    requires |p.script| < UINT64 && |p.commitment| == 32
    ensures ParseOutputs(Outputs(p)) == Some((p.value as nat, p.script, p.commitment))
  {
    hide LE, LEVal, Zeros, Take, Expect, ExpectSize, CompactSize.Encode, CompactSize.Read;
    var e8 := p.commitment + Zeros(4);
    var e7 := COMMITMENT_TAG + e8;
    var e6 := CompactSize.Encode(38) + e7;
    var e5 := Zeros(8) + e6;
    var e4 := p.script + e5;
    var e3 := CompactSize.Encode(|p.script|) + e4;
    var e2 := LE(p.value, 8) + e3;
    ExpectSizeFront(2, e2);
    TakeFront(LE(p.value, 8), e3);
    CompactSize.ReadEncode(|p.script|, e4);
    TakeFront(p.script, e5);
    ExpectFront(Zeros(8), e6);
    ExpectSizeFront(38, e7);
    ExpectFront(COMMITMENT_TAG, e8);
    TakeFront(p.commitment, Zeros(4));
    ValueBack(p.value);
  }

  lemma ValueBack(v: word64)
    ensures LEVal(LE(v, 8)) == v
  {
    Powers256();
    LERoundTrip(v, 8);
  }

  /** Parsing a coinbase gives what its script parses to, and its payment, and consumes every byte. */
  lemma ParseWithScript(sig: seq<byte>, p: Payment)
    requires |sig| < UINT64 && |p.script| < UINT64 && |p.commitment| == 32
    ensures Parse(Transaction(sig, p)) ==
      match ParseSig(sig)
      case Some((height, tag)) => Some((height, tag, p.value as nat, p.script, p.commitment))
      case None => None
  {
    hide Zeros, Take, Expect, ExpectSize, CompactSize.Encode, CompactSize.Read, ParseSig, Outputs, ParseOutputs;
    var e7 := ONES + Outputs(p);
    var e6 := sig + e7;
    var e5 := CompactSize.Encode(|sig|) + e6;
    var e4 := ONES + e5;
    var e3 := Zeros(32) + e4;
    var e2 := CompactSize.Encode(1) + e3;
    ExpectFront(VERSION, e2);
    ExpectSizeFront(1, e3);
    ExpectFront(Zeros(32), e4);
    ExpectFront(ONES, e5);
    CompactSize.ReadEncode(|sig|, e6);
    TakeFront(sig, e7);
    ExpectFront(ONES, Outputs(p));
    ParseOutputsBack(p);
  }

  /**
   * Parsing a transaction built here recovers every field and consumes every byte exactly when there is no tag or the
   * bytes in front of it announce it.
   */
  lemma ParseTransaction(height: word, lead: seq<byte>, tag: seq<byte>, p: Payment)
    requires |lead| > 0
    requires |ScriptSig(height, lead, tag)| < UINT64 && |p.script| < UINT64 && |p.commitment| == 32
    ensures
      Parse(Transaction(ScriptSig(height, lead, tag), p)) ==
      Some((height as nat, tag, p.value as nat, p.script, p.commitment)) <==>
      |tag| == 0 || Announces(lead, |tag|)
  {
    hide Parse, Transaction, ScriptSig, ParseSig, Announces;
    ParseScriptSig(height, lead, tag);
    ParseWithScript(ScriptSig(height, lead, tag), p);
  }

  /**
   * A length written in big-endian bytes announces nothing but lengths up to 75, which fit in one byte: the opcodes for
   * longer data start with a byte that makes the big-endian number larger than any length they can announce.
   */
  lemma BigEndianAnnounces(lead: seq<byte>, n: nat)
    requires 0 < |lead| <= 4 && BEVal(lead) == n % UINT32
    requires n < 256 ==> |lead| == 1
    ensures Announces(lead, n) <==> n <= 75
  {
    hide LEVal;
    Powers256();
    if |lead| == 1 {
      assert lead[..0] == [] && BEVal(lead) == lead[0];
    } else if |lead| <= 3 {
      BEValFirst(lead);
      CompactSize.LEOfVal(lead[1..]);
      assert |lead| == 2 ==> lead[1..2] == lead[1..];
      assert |lead| == 3 ==> lead[1..3] == lead[1..];
    }
  }

  lemma {:induction false} BEValFirst(s: seq<byte>)
    requires |s| > 0
    ensures BEVal(s) >= s[0] * Pow256(|s| - 1)
  {
    if |s| > 1 {
      BEValFirst(s[..|s|-1]);
      assert s[0] * Pow256(|s| - 1) == s[0] * Pow256(|s| - 2) * 256;
    }
  }
}
