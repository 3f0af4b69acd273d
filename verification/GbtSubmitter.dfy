/** The hex builders of src/submit/gbt_submitter.cc. */
module GbtSubmitter {
  import opened Options
  import opened Words
  import opened Hex
  import opened Coinbase
  import CompactSize

  // ---- Numbers in hex ----

  function HexNumber(n: nat): string {
    if n < 16 then [Digit(n)] else HexNumber(n / 16) + [Digit(n % 16)]
  }

  /** An integer written by a stream set to hex, width two and fill '0'. */
  function TwoDigits(n: nat): string {
    if n < 16 then ['0'] + HexNumber(n) else HexNumber(n)
  }

  lemma TwoDigitsIsByte(b: byte)
    ensures TwoDigits(b) == HexByte(b)
  {
    if b >= 16 {
      assert HexNumber(b / 16) == [Digit(b / 16)];
    }
  }

  function VarInt(v: word64): string {
    ToHex(CompactSize.Encode(v))
  }

  function Repeat(s: string, n: nat): string {
    if n == 0 then "" else Repeat(s, n - 1) + s
  }

  // ---- The coinbase text ----

  /** The length in front of a tag: cast to a 32-bit integer, and written with as many digits as it takes. */
  function Announced(tag: string): string {
    TwoDigits(|tag| / 2 % UINT32)
  }

  function TagPush(tag: string): string {
    if tag == "" then "" else Announced(tag) + tag
  }

  function SigText(height: word, tag: string): string {
    ToHex(Push(HeightBytes(height))) + TagPush(tag)
  }

  function CommitmentScript(commitment: string): string {
    "6a24aa21a9ed" + commitment
  }

  /** The transaction text for any arguments; it need not be hex if they are not. */
  function CoinbaseText(height: word, payout: string, value: word64, commitment: string, tag: string): string
    requires |SigText(height, tag)| < UINT64 && |payout| < UINT64 && |commitment| == 64
  {
    var sig, spk := SigText(height, tag), CommitmentScript(commitment);
    var input := "01000000" + VarInt(1) + Repeat("00", 32) + "ffffffff" + VarInt(|sig| / 2) + sig + "ffffffff";
    var payment := input + VarInt(2) + ToHex(LE(value, 8)) + VarInt(|payout| / 2) + payout;
    payment + "0000000000000000" + VarInt(|spk| / 2) + spk + "00000000"
  }

  /** Appends bytes one by one, two digits each. */
  method WriteBytes(oss: string, bs: seq<byte>) returns (oss': string)
    ensures oss' == oss + ToHex(bs)
  {
    hide HexByte, TwoDigits;
    oss' := oss;
    HexOne(0);
    assert bs[..0] == [] && oss + "" == oss;
    for i := 0 to |bs|
      invariant oss' == oss + ToHex(bs[..i])
    {
      TwoDigitsIsByte(bs[i]);
      HexSnoc(bs[..i], bs[i]);
      assert bs[..i+1] == bs[..i] + [bs[i]];
      oss' := oss' + TwoDigits(bs[i]);
    }
    assert bs[..|bs|] == bs;
  }

  /** The bytes of the height, split off from the low end. */
  method SplitHeight(height: word) returns (le: seq<byte>)
    ensures le == HeightBytes(height) && LEVal(le) == height
    ensures if height == 0 then le == [0] else |le| > 0 && le[|le|-1] != 0
  {
    HeightIs(height);
    ShortForm(height);
    hide HeightBytes, LEVal, ShortLE;
    le := [];
    var h: nat := height;
    assert [] + ShortLE(height) == ShortLE(height);
    while h != 0
      invariant le + ShortLE(h) == ShortLE(height)
      decreases h
    {
      ShortStep(le, h);
      le := le + [h % 256];
      h := h / 256;
    }
    assert le + [] == le;
    if |le| == 0 {
      le := [0];
    }
  }

  lemma ShortForm(height: word)
    ensures HeightBytes(height) == if height == 0 then [0] else ShortLE(height)
    ensures ShortLE(0) == [] && (height > 0 ==> |ShortLE(height)| > 0)
  {
  }

  lemma ShortStep(le: seq<byte>, h: nat)
    requires h > 0
    ensures le + ShortLE(h) == le + [h % 256] + ShortLE(h / 256)
  {
  }

  /** encodeBip34Height. */
  method EncodeBip34Height(height: word) returns (hex: string)
    ensures hex == ToHex(Push(HeightBytes(height)))
    ensures FromHex(hex).Some? && ReadPush(FromHex(hex).value).Some?
    ensures
      var (le, rest) := ReadPush(FromHex(hex).value).value;
      && rest == [] && LEVal(le) == height && (height == 0 ==> le == [0])
      && (height > 0 ==> forall bs: seq<byte> :: LEVal(bs) == height ==> |le| <= |bs|)
  {
    hide HexByte, TwoDigits, HeightBytes, ReadPush, LEVal;
    HeightIs(height);
    HeightRead(height, []);
    FromToHex(Push(HeightBytes(height)));
    assert Push(HeightBytes(height)) + [] == Push(HeightBytes(height));
    var le := SplitHeight(height);
    TwoDigitsIsByte(|le|);
    hex := WriteBytes(TwoDigits(|le|), le);
    assert ([|le|] + le)[1..] == le;
  }

  /** The eight value bytes, lowest first. */
  method ValueHex(oss: string, value: word64) returns (oss': string)
    ensures oss' == oss + ToHex(LE(value, 8))
  {
    hide HexByte, TwoDigits, LE, ToHex;
    oss' := oss;
    var v: nat := value;
    ghost var done: seq<byte> := [];
    assert oss + ToHex([]) == oss by { HexOne(0); }
    for i := 0 to 8
      invariant done + LE(v, 8 - i) == LE(value, 8)
      invariant oss' == oss + ToHex(done)
    {
      TwoDigitsIsByte(v % 256);
      HexSnoc(done, v % 256);
      LEStep(v, 8 - i);
      assert done + ([v % 256] + LE(v / 256, 7 - i)) == (done + [v % 256]) + LE(v / 256, 7 - i);
      assert oss + (ToHex(done) + HexByte(v % 256)) == (oss + ToHex(done)) + HexByte(v % 256);
      oss' := oss' + TwoDigits(v % 256);
      done := done + [v % 256];
      v := v / 256;
    }
    assert done + LE(v, 0) == done;
  }

  lemma LEStep(v: nat, n: nat)
    requires n > 0
    ensures LE(v, n) == [v % 256] + LE(v / 256, n - 1)
  {
  }

  /** n copies of a text. */
  method WriteRepeated(oss: string, s: string, n: nat) returns (oss': string)
    ensures oss' == oss + Repeat(s, n)
  {
    oss' := oss;
    for i := 0 to n
      invariant oss' == oss + Repeat(s, i)
    {
      assert oss + (Repeat(s, i) + s) == (oss + Repeat(s, i)) + s;
      oss' := oss' + s;
    }
  }

  predicate HexArguments(payout: string, commitment: string, tag: string) {
    FromHex(tag).Some? && FromHex(payout).Some? && FromHex(commitment).Some?
  }

  /** What a reader of the text gets: height, tag, value, payout script and commitment, if it can be read. */
  function ReadBack(tx: string): Option<(nat, seq<byte>, nat, seq<byte>, seq<byte>)> {
    var bytes :- FromHex(tx);
    Parse(bytes)
  }

  /**
   * Reading the text recovers every field, and consumes every byte, exactly when the tag is at most 75 bytes. A longer
   * tag is announced by bytes that are no push of its length, or by an odd number of digits.
   */
  predicate Recovered(height: word, payout: string, value: word64, commitment: string, tag: string, tx: string)
    requires HexArguments(payout, commitment, tag)
  {
    var t, p, c := FromHex(tag).value, FromHex(payout).value, FromHex(commitment).value;
    ReadBack(tx) == Some((height as nat, t, value as nat, p, c)) <==> |t| <= 75
  }

  /** The script: the height, and the tag behind its announced length if there is one. */
  method WriteSig(height: word, tag: string) returns (sig: string)
    ensures sig == SigText(height, tag)
  {
    hide TwoDigits, ToHex, SigText, FromHex, ReadPush, LEVal, Push, HeightBytes;
    sig := EncodeBip34Height(height);
    if tag != "" {
      sig := sig + (TwoDigits(|tag| / 2 % UINT32) + tag);
    }
    SigTextIs(height, tag);
  }

  /** The writes to the output stream, in order. */
  method WriteTransaction(height: word, payout: string, value: word64, commitment: string, tag: string)
    returns (oss: string)
    requires |SigText(height, tag)| < UINT64 && |payout| < UINT64 && |commitment| == 64
    ensures oss == CoinbaseText(height, payout, value, commitment, tag)
  {
    hide SigText, CoinbaseText, Repeat, ToHex, FromHex, LE, CompactSize.Encode, CompactSize.Read;
    oss := "01000000";
    var count := CompactSize.EncodeVarIntHex(1);
    oss := oss + count;
    oss := WriteRepeated(oss, "00", 32);
    oss := oss + "ffffffff";
    var sig := WriteSig(height, tag);
    count := CompactSize.EncodeVarIntHex(|sig| / 2);
    oss := oss + count + sig + "ffffffff";
    count := CompactSize.EncodeVarIntHex(2);
    oss := oss + count;
    oss := ValueHex(oss, value);
    count := CompactSize.EncodeVarIntHex(|payout| / 2);
    oss := oss + count + payout + "0000000000000000";
    var spk := "6a24aa21a9ed" + commitment;
    count := CompactSize.EncodeVarIntHex(|spk| / 2);
    oss := oss + count + spk + "00000000";
    TextIs(height, payout, value, commitment, tag, sig, spk);
  }

  /** buildCoinbaseTx: the text, or nothing when the commitment is not 64 characters. */
  method BuildCoinbaseTx(height: word, payout: string, value: word64, commitment: string, tag: string)
    returns (ok: bool, tx: string)
    requires |SigText(height, tag)| < UINT64 && |payout| < UINT64
    ensures ok == (|commitment| == 64)
    ensures ok ==> tx == CoinbaseText(height, payout, value, commitment, tag)
    ensures ok && HexArguments(payout, commitment, tag) ==> Recovered(height, payout, value, commitment, tag, tx)
  {
    hide *;
    if |commitment| != 64 {
      return false, "";
    }
    tx := WriteTransaction(height, payout, value, commitment, tag);
    ok := true;
    if HexArguments(payout, commitment, tag) {
      DecodeCoinbase(height, payout, value, commitment, tag);
    }
  }

  lemma SigTextIs(height: word, tag: string)
    ensures
      var h := ToHex(Push(HeightBytes(height)));
      SigText(height, tag) == if tag == "" then h else h + (TwoDigits(|tag| / 2 % UINT32) + tag)
  {
    hide ToHex, TwoDigits, Push, HeightBytes;
    assert ToHex(Push(HeightBytes(height))) + "" == ToHex(Push(HeightBytes(height)));
  }

  /** The text in the order in which it is written. */
  lemma TextIs(height: word, payout: string, value: word64, commitment: string, tag: string, sig: string, spk: string)
    requires |SigText(height, tag)| < UINT64 && |payout| < UINT64 && |commitment| == 64
    requires sig == SigText(height, tag) && spk == "6a24aa21a9ed" + commitment
    ensures CoinbaseText(height, payout, value, commitment, tag) ==
      "01000000" + ToHex(CompactSize.Encode(1)) + Repeat("00", 32) + "ffffffff" +
      ToHex(CompactSize.Encode(|sig| / 2)) + sig + "ffffffff" + ToHex(CompactSize.Encode(2)) + ToHex(LE(value, 8)) +
      ToHex(CompactSize.Encode(|payout| / 2)) + payout + "0000000000000000" + ToHex(CompactSize.Encode(|spk| / 2)) +
      spk + "00000000"
  {
    hide SigText, Repeat, ToHex, LE, CompactSize.Encode;
  }

  // ---- What the text decodes to ----

  /** The text so far decodes to acc, and with `rest` still to come acc makes up the whole. */
  ghost predicate Progress(text: string, acc: seq<byte>, rest: seq<byte>, whole: seq<byte>) {
    FromHex(text) == Some(acc) && acc + rest == whole
  }

  lemma Append(text: string, part: string, acc: seq<byte>, bytes: seq<byte>, rest: seq<byte>, whole: seq<byte>)
    requires Progress(text, acc, bytes + rest, whole) && FromHex(part) == Some(bytes)
    ensures Progress(text + part, acc + bytes, rest, whole)
  {
    hide FromHex;
    FromHexConcat(text, part);
    assert acc + (bytes + rest) == (acc + bytes) + rest;
  }

  lemma Constants()
    ensures FromHex("01000000") == Some(VERSION) && FromHex("ffffffff") == Some(ONES)
    ensures FromHex("00000000") == Some(Zeros(4)) && FromHex("0000000000000000") == Some(Zeros(8))
    ensures FromHex("6a24aa21a9ed") == Some(COMMITMENT_TAG)
  {
    hide FromHex, ToHex;
    assert FromHex("01000000") == Some(VERSION) by { TextOf(VERSION, "01000000"); }
    assert FromHex("ffffffff") == Some(ONES) by { TextOf(ONES, "ffffffff"); }
    CommitmentTagText();
    RepeatZeros(4);
    RepeatZeros(8);
    assert Repeat("00", 4) == "00000000";
    assert Repeat("00", 8) == "0000000000000000";
  }

  lemma CommitmentTagText()
    ensures FromHex("6a24aa21a9ed") == Some(COMMITMENT_TAG)
  {
    hide FromHex, ToHex;
    TextOf([0x6a, 0x24, 0xaa], "6a24aa");
    TextOf([0x21, 0xa9, 0xed], "21a9ed");
    FromHexConcat("6a24aa", "21a9ed");
    assert "6a24aa" + "21a9ed" == "6a24aa21a9ed";
    assert [0x6a, 0x24, 0xaa] + [0x21, 0xa9, 0xed] == COMMITMENT_TAG;
  }

  /** The text is the bytes' hex, two digits a byte. */
  ghost predicate IsTextOf(bs: seq<byte>, text: string) {
    && |text| == 2 * |bs|
    && forall i :: 0 <= i < |bs| ==> text[2*i] == Digit(bs[i] / 16) && text[2*i+1] == Digit(bs[i] % 16)
  }

  lemma {:induction false} TextOf(bs: seq<byte>, text: string)
    requires IsTextOf(bs, text)
    ensures FromHex(text) == Some(bs)
  {
    FromToHex(bs);
    TextIsHex(bs, text);
  }

  lemma {:induction false} TextIsHex(bs: seq<byte>, text: string)
    requires IsTextOf(bs, text)
    ensures text == ToHex(bs)
  {
    hide Digit;
    if |bs| > 0 {
      forall i | 0 <= i < |bs| - 1
        ensures text[2..][2*i] == Digit(bs[1..][i] / 16) && text[2..][2*i+1] == Digit(bs[1..][i] % 16)
      {
        assert text[2*(i+1)] == Digit(bs[i+1] / 16);
      }
      TextIsHex(bs[1..], text[2..]);
      assert text == text[..2] + text[2..];
    }
  }

  lemma {:induction false} RepeatZeros(n: nat)
    ensures FromHex(Repeat("00", n)) == Some(Zeros(n))
  {
    if n > 0 {
      RepeatZeros(n - 1);
      assert FromHex("00") == Some([0]) by {
        FromToHex([0]);
        HexOne(0);
      }
      FromHexConcat(Repeat("00", n - 1), "00");
      assert Zeros(n) == Zeros(n - 1) + [0];
    }
  }

  lemma {:induction false} HexNumberDigits(n: nat)
    ensures |HexNumber(n)| > 0 && forall i :: 0 <= i < |HexNumber(n)| ==> DigitValue(HexNumber(n)[i]).Some?
  {
    DigitValueOf(n % 16);
    hide Digit, DigitValue;
    if n >= 16 {
      HexNumberDigits(n / 16);
    }
  }

  /** The announcing text is two digits for a byte, and in any case decodes when its digits are even in number. */
  lemma TwoDigitsDecode(n: nat)
    ensures FromHex(TwoDigits(n)).Some? <==> |TwoDigits(n)| % 2 == 0
    ensures |TwoDigits(n)| >= 2
    ensures n < 256 ==> FromHex(TwoDigits(n)) == Some([n])
  {
    HexNumberDigits(n);
    HexNumberDigits(n / 16);
    assert DigitValue('0').Some?;
    hide FromHex, DigitValue, Digit;
    FromHexDigits(TwoDigits(n));
    if n < 256 {
      hide TwoDigits, HexByte;
      TwoDigitsIsByte(n);
      HexOne(n);
      FromToHex([n]);
    }
  }

  /** The number a text of hex digits stands for. */
  function HexVal(s: string): nat {
    if |s| == 0 then 0
    else HexVal(s[..|s|-1]) * 16 + (if DigitValue(s[|s|-1]).Some? then DigitValue(s[|s|-1]).value else 0)
  }

  lemma {:induction false} HexValNumber(n: nat)
    ensures HexVal(HexNumber(n)) == n && HexVal(TwoDigits(n)) == n
  {
    DigitValueOf(n % 16);
    hide Digit, DigitValue;
    if n < 16 {
      assert HexNumber(n)[..0] == "" && DigitValue('0') == Some(0) by { DigitValueOf(0); }
      assert TwoDigits(n)[..1] == "0" && "0"[..0] == "";
    } else {
      HexValNumber(n / 16);
      assert HexNumber(n)[..|HexNumber(n)|-1] == HexNumber(n / 16);
    }
  }

  /** Its bytes stand for the same number, highest first. */
  lemma {:induction false} HexValBytes(s: string)
    requires forall i :: 0 <= i < |s| ==> DigitValue(s[i]).Some?
    requires |s| % 2 == 0
    ensures FromHex(s).Some? && BEVal(FromHex(s).value) == HexVal(s)
    decreases |s|
  {
    if |s| > 0 {
      var n := |s| - 2;
      var front, last := s[..n], s[n..];
      HexValBytes(front);
      var b := DigitValue(s[n]).value * 16 + DigitValue(s[n+1]).value;
      assert FromHex(last) == Some([b]) by { assert last[2..] == "" && [b] + [] == [b]; }
      hide FromHex, DigitValue;
      FromHexConcat(front, last);
      assert front + last == s;
      assert (FromHex(front).value + [b])[..|FromHex(front).value|] == FromHex(front).value;
      assert s[..n+1][..n] == front && s[..n+1][n] == s[n];
    }
  }

  /** A 32-bit number takes at most eight digits. */
  lemma {:induction false} HexNumberLength(n: nat, d: nat)
    requires n < Pow2(4 * d) && d > 0
    ensures |HexNumber(n)| <= d
  {
    if d > 1 && n >= 16 {
      var k := 4 * (d - 1);
      assert Pow2(k + 2) == 4 * Pow2(k) && Pow2(k + 4) == 4 * Pow2(k + 2);
      HexNumberLength(n / 16, d - 1);
    } else if d == 1 {
      assert Pow2(4) == 16;
    }
  }

  /** The bytes that announce a tag, when its length has an even number of digits. */
  function Lead(tag: string): (lead: seq<byte>)
    ensures |lead| > 0
  {
    if FromHex(Announced(tag)).Some? && |FromHex(Announced(tag)).value| > 0 then FromHex(Announced(tag)).value else [0]
  }

  lemma LeadIs(tag: string)
    requires FromHex(tag).Some?
    ensures |Announced(tag)| % 2 == 0 ==>
      && FromHex(Announced(tag)) == Some(Lead(tag))
      && (Announces(Lead(tag), |FromHex(tag).value|) <==> |FromHex(tag).value| <= 75)
    ensures |FromHex(tag).value| < 256 ==> |Announced(tag)| % 2 == 0
  {
    hide FromHex, TwoDigits, Announces;
    FromHexLength(tag);
    var n := |FromHex(tag).value|;
    var m := n % UINT32;
    AnnouncedText(m);
    if |TwoDigits(m)| % 2 == 0 {
      FromHexLength(TwoDigits(m));
      BigEndianAnnounces(Lead(tag), n);
    }
  }

  /** The digits of a 32-bit length: two for a byte, at most eight, and as bytes they are the length, highest first. */
  lemma AnnouncedText(m: word)
    ensures 2 <= |TwoDigits(m)| <= 8 && (m < 256 ==> |TwoDigits(m)| == 2)
    ensures |TwoDigits(m)| % 2 == 0 ==> FromHex(TwoDigits(m)).Some? && BEVal(FromHex(TwoDigits(m)).value) == m
  {
    hide FromHex, DigitValue, Digit, BEVal, HexVal;
    Pow2Word();
    HexNumberLength(m, 8);
    TwoDigitsDecode(m);
    HexValNumber(m);
    if |TwoDigits(m)| % 2 == 0 {
      TwoDigitsAreDigits(m);
      HexValBytes(TwoDigits(m));
    }
    if m < 256 {
      FromHexLength(TwoDigits(m));
    }
  }

  lemma TwoDigitsAreDigits(n: nat)
    ensures forall i :: 0 <= i < |TwoDigits(n)| ==> DigitValue(TwoDigits(n)[i]).Some?
  {
    HexNumberDigits(n);
    assert DigitValue('0').Some?;
    hide DigitValue;
  }

  lemma DecodeSig(height: word, tag: string)
    requires FromHex(tag).Some? && (tag == "" || |Announced(tag)| % 2 == 0)
    ensures
      var sig := ScriptSig(height, Lead(tag), FromHex(tag).value);
      FromHex(SigText(height, tag)) == Some(sig) && |SigText(height, tag)| / 2 == |sig|
  {
    hide FromHex, ToHex, HexByte, Announced, HeightBytes, Lead;
    FromHexLength(tag);
    var t, push := FromHex(tag).value, Push(HeightBytes(height));
    hide Push;
    FromToHex(push);
    if tag == "" {
      assert t == [] && push + [] == push && ToHex(push) + "" == ToHex(push);
    } else {
      LeadIs(tag);
      FromHexConcat(Announced(tag), tag);
      FromHexConcat(ToHex(push), TagPush(tag));
    }
    FromHexLength(SigText(height, tag));
  }

  lemma DecodeCommitment(commitment: string)
    requires |commitment| == 64 && FromHex(commitment).Some?
    ensures |FromHex(commitment).value| == 32 && |CommitmentScript(commitment)| / 2 == 38
    ensures FromHex(CommitmentScript(commitment)) == Some(COMMITMENT_TAG + FromHex(commitment).value)
  {
    FromHexLength(commitment);
    Constants();
    FromHexConcat("6a24aa21a9ed", commitment);
  }

  /** From hex arguments, reading the text gives its fields or nothing, as the length of the tag decides. */
  lemma DecodeCoinbase(height: word, payout: string, value: word64, commitment: string, tag: string)
    requires |SigText(height, tag)| < UINT64 && |payout| < UINT64 && |commitment| == 64
    requires HexArguments(payout, commitment, tag)
    ensures Recovered(height, payout, value, commitment, tag, CoinbaseText(height, payout, value, commitment, tag))
  {
    hide FromHex, CoinbaseText, Parse, Transaction, ScriptSig, SigText, CommitmentScript, Announced, Lead, Announces;
    LeadIs(tag);
    FromHexLength(payout);
    if tag == "" || |Announced(tag)| % 2 == 0 {
      DecodeSig(height, tag);
      DecodeCommitment(commitment);
      var t, p := FromHex(tag).value, Payment(value, FromHex(payout).value, FromHex(commitment).value);
      EmptyTag(tag);
      ParseTransaction(height, Lead(tag), t, p);
      DecodeInput(height, ScriptSig(height, Lead(tag), t), p, payout, commitment, tag);
    } else {
      OddText(height, payout, value, commitment, tag);
      FromHexLength(CoinbaseText(height, payout, value, commitment, tag));
    }
  }

  lemma EmptyTag(tag: string)
    requires FromHex(tag).Some?
    ensures FromHex(tag).value == [] <==> tag == ""
  {
    FromHexLength(tag);
  }

  /** An odd number of digits in front of the tag leaves the whole text with an odd number of digits. */
  lemma OddText(height: word, payout: string, value: word64, commitment: string, tag: string)
    requires |SigText(height, tag)| < UINT64 && |payout| < UINT64 && |commitment| == 64
    requires FromHex(tag).Some? && |payout| % 2 == 0 && tag != "" && |Announced(tag)| % 2 == 1
    ensures |CoinbaseText(height, payout, value, commitment, tag)| % 2 == 1
  {
    hide FromHex, ToHex, LE, CompactSize.Encode, HeightBytes, Announced;
    FromHexLength(tag);
    RepeatLength("00", 32);
    assert |SigText(height, tag)| % 2 == 1;
  }

  lemma {:induction false} RepeatLength(s: string, n: nat)
    ensures |Repeat(s, n)| == n * |s|
  {
    if n > 0 {
      RepeatLength(s, n - 1);
      assert n * |s| == (n - 1) * |s| + |s|;
    }
  }

  /** The text decodes to the transaction of the script its script text decodes to. */
  lemma DecodeInput(height: word, sigBytes: seq<byte>, p: Payment, payout: string, commitment: string, tag: string)
    requires |SigText(height, tag)| < UINT64 && |payout| < UINT64 && |commitment| == 64
    requires |p.script| < UINT64 && 2 * |p.script| == |payout| && FromHex(payout) == Some(p.script)
    requires FromHex(SigText(height, tag)) == Some(sigBytes) && |SigText(height, tag)| / 2 == |sigBytes|
    requires FromHex(CommitmentScript(commitment)) == Some(COMMITMENT_TAG + p.commitment)
    requires |CommitmentScript(commitment)| / 2 == 38
    ensures FromHex(CoinbaseText(height, payout, p.value, commitment, tag)) == Some(Transaction(sigBytes, p))
  {
    hide FromHex, ToHex, Repeat, SigText, CommitmentScript, Zeros, LE, CompactSize.Encode;
    Constants();
    RepeatZeros(32);
    var sig, w := SigText(height, tag), Transaction(sigBytes, p);
    var e1, es := CompactSize.Encode(1), CompactSize.Encode(|sigBytes|);
    FromToHex(e1);
    FromToHex(es);
    var r6 := ONES + Outputs(p);
    var r5 := sigBytes + r6;
    var r4 := es + r5;
    var r3 := ONES + r4;
    var r2 := Zeros(32) + r3;
    var t0, a0 := "01000000", VERSION;
    var t1, a1 := t0 + VarInt(1), a0 + e1;
    var t2, a2 := t1 + Repeat("00", 32), a1 + Zeros(32);
    var t3, a3 := t2 + "ffffffff", a2 + ONES;
    var t4, a4 := t3 + VarInt(|sig| / 2), a3 + es;
    var t5, a5 := t4 + sig, a4 + sigBytes;
    Append(t0, VarInt(1), a0, e1, r2, w);
    Append(t1, Repeat("00", 32), a1, Zeros(32), r3, w);
    Append(t2, "ffffffff", a2, ONES, r4, w);
    Append(t3, VarInt(|sig| / 2), a3, es, r5, w);
    Append(t4, sig, a4, sigBytes, r6, w);
    Append(t5, "ffffffff", a5, ONES, Outputs(p), w);
    DecodeOutputs(t5 + "ffffffff", a5 + ONES, p, payout, commitment, w);
  }

  /** The rest of the text decodes to the outputs and the lock time. */
  lemma DecodeOutputs(text: string, acc: seq<byte>, p: Payment, payout: string, commitment: string, w: seq<byte>)
    requires |payout| < UINT64 && |p.script| < UINT64 && Progress(text, acc, Outputs(p), w)
    requires 2 * |p.script| == |payout| && FromHex(payout) == Some(p.script)
    requires FromHex(CommitmentScript(commitment)) == Some(COMMITMENT_TAG + p.commitment)
    requires |CommitmentScript(commitment)| / 2 == 38
    ensures
      var spk := CommitmentScript(commitment);
      FromHex(text + VarInt(2) + ToHex(LE(p.value, 8)) + VarInt(|payout| / 2) + payout +
              "0000000000000000" + VarInt(|spk| / 2) + spk + "00000000") == Some(w)
  {
    hide FromHex, ToHex, CommitmentScript, Zeros, LE, CompactSize.Encode;
    var e2, el, v := CompactSize.Encode(2), CompactSize.Encode(|p.script|), LE(p.value, 8);
    FromToHex(e2);
    FromToHex(el);
    FromToHex(v);
    var r5 := CommitmentBytes(COMMITMENT_TAG + p.commitment);
    var r4 := p.script + r5;
    var r3 := el + r4;
    var r2 := v + r3;
    assert Outputs(p) == e2 + r2 by { CommitmentRest(p); }
    hide Outputs, Progress, COMMITMENT_TAG, CommitmentBytes;
    var t1, a1 := text + VarInt(2), acc + e2;
    var t2, a2 := t1 + ToHex(v), a1 + v;
    var t3, a3 := t2 + VarInt(|payout| / 2), a2 + el;
    Append(text, VarInt(2), acc, e2, r2, w);
    Append(t1, ToHex(v), a1, v, r3, w);
    Append(t2, VarInt(|payout| / 2), a2, el, r4, w);
    Append(t3, payout, a3, p.script, r5, w);
    DecodeCommitmentOutput(t3 + payout, a3 + p.script, COMMITMENT_TAG + p.commitment, CommitmentScript(commitment), w);
  }

  /** The output with the commitment, its value and its size in front, and the lock time behind it. */
  function CommitmentBytes(c: seq<byte>): seq<byte> {
    Zeros(8) + (CompactSize.Encode(38) + (c + Zeros(4)))
  }

  lemma CommitmentRest(p: Payment)
    ensures CommitmentBytes(COMMITMENT_TAG + p.commitment) ==
      Zeros(8) + (CompactSize.Encode(38) + (COMMITMENT_TAG + (p.commitment + Zeros(4))))
  {
    hide Zeros, CompactSize.Encode, COMMITMENT_TAG;
    assert (COMMITMENT_TAG + p.commitment) + Zeros(4) == COMMITMENT_TAG + (p.commitment + Zeros(4));
  }

  lemma DecodeCommitmentOutput(text: string, acc: seq<byte>, c: seq<byte>, spk: string, w: seq<byte>)
    requires Progress(text, acc, CommitmentBytes(c), w) && FromHex(spk) == Some(c) && |spk| / 2 == 38
    ensures FromHex(text + "0000000000000000" + VarInt(|spk| / 2) + spk + "00000000") == Some(w)
  {
    hide FromHex, ToHex, Zeros, CompactSize.Encode, Progress;
    Constants();
    var e38 := CompactSize.Encode(38);
    FromToHex(e38);
    var r7 := c + Zeros(4);
    var t5, a5 := text + "0000000000000000", acc + Zeros(8);
    var t6, a6 := t5 + VarInt(38), a5 + e38;
    var t7, a7 := t6 + spk, a6 + c;
    Append(text, "0000000000000000", acc, Zeros(8), e38 + r7, w);
    Append(t5, VarInt(38), a5, e38, r7, w);
    Append(t6, spk, a6, c, Zeros(4), w);
    assert Zeros(4) + [] == Zeros(4);
    Append(t7, "00000000", a7, Zeros(4), [], w);
    Complete(t7 + "00000000", a7 + Zeros(4), w);
  }

  lemma Complete(text: string, acc: seq<byte>, whole: seq<byte>)
    requires Progress(text, acc, [], whole)
    ensures FromHex(text) == Some(whole)
  {
    assert acc + [] == acc;
  }

  // ---- The block text ----

  function Joined(txs: seq<string>): string {
    if |txs| == 0 then "" else Joined(txs[..|txs|-1]) + txs[|txs|-1]
  }

  function JoinedBytes(txs: seq<string>): seq<byte>
    requires forall i :: 0 <= i < |txs| ==> FromHex(txs[i]).Some?
  {
    if |txs| == 0 then [] else JoinedBytes(txs[..|txs|-1]) + FromHex(txs[|txs|-1]).value
  }

  function TxCount(coinbase: string, txs: seq<string>): nat {
    (if coinbase == "" then 0 else 1) + |txs|
  }

  function BlockText(header80: seq<byte>, coinbase: string, txs: seq<string>): string
    requires TxCount(coinbase, txs) < UINT64
  {
    ToHex(header80) + VarInt(TxCount(coinbase, txs)) + coinbase + Joined(txs)
  }

  /** Header, transaction count and the transactions of a block. */
  function ReadBlock(bs: seq<byte>): Option<(seq<byte>, nat, seq<byte>)> {
    var (header, rest) :- Take(bs, 80);
    var (count, body) :- CompactSize.Read(rest);
    Some((header, count, body))
  }

  class GbtSubmitter {
    var coinbaseHex: string
    var txsHex: seq<string>

    /** buildBlockHex. */
    method BuildBlockHex(header80: seq<byte>) returns (hex: string)
      requires |header80| == 80 && TxCount(coinbaseHex, txsHex) < UINT64
      ensures hex == BlockText(header80, coinbaseHex, txsHex)
    {
      hide ToHex, Joined, CompactSize.Encode;
      hex := HeaderHex(header80);
      var count := CompactSize.EncodeVarIntHex((if coinbaseHex == "" then 0 else 1) + |txsHex|);
      hex := hex + count;
      if coinbaseHex != "" {
        hex := hex + coinbaseHex;
      }
      hex := WriteTransactions(hex, txsHex);
    }
  }

  /** leHexFromHeaderBE: the header bytes in their order. */
  method HeaderHex(header80: seq<byte>) returns (s: string)
    ensures s == ToHex(header80)
  {
    hide HexByte;
    s := "";
    assert ToHex(header80[..0]) == "" by { HexOne(0); }
    for i := 0 to |header80|
      invariant s == ToHex(header80[..i])
    {
      HexSnoc(header80[..i], header80[i]);
      assert header80[..i+1] == header80[..i] + [header80[i]];
      HexByteIs(header80[i]);
      s := s + [Digit(header80[i] / 16), Digit(header80[i] % 16)];
    }
    assert header80[..|header80|] == header80;
  }

  method WriteTransactions(head: string, txs: seq<string>) returns (hex: string)
    ensures hex == head + Joined(txs)
  {
    hex := head;
    for i := 0 to |txs|
      invariant hex == head + Joined(txs[..i])
    {
      assert txs[..i+1][..i] == txs[..i];
      assert head + (Joined(txs[..i]) + txs[i]) == (head + Joined(txs[..i])) + txs[i];
      hex := hex + txs[i];
    }
    assert txs[..|txs|] == txs;
  }

  lemma HexByteIs(b: byte)
    ensures HexByte(b) == [Digit(b / 16), Digit(b % 16)]
  {
  }

  lemma {:induction false} JoinedDecodes(txs: seq<string>)
    requires forall i :: 0 <= i < |txs| ==> FromHex(txs[i]).Some?
    ensures FromHex(Joined(txs)) == Some(JoinedBytes(txs))
  {
    if |txs| > 0 {
      hide FromHex;
      JoinedDecodes(txs[..|txs|-1]);
      FromHexConcat(Joined(txs[..|txs|-1]), txs[|txs|-1]);
    }
  }

  /** The bytes of every transaction stand behind those of the ones before it and in front of those after it. */
  lemma {:induction false} JoinedInOrder(txs: seq<string>, i: nat)
    requires i < |txs| && forall k :: 0 <= k < |txs| ==> FromHex(txs[k]).Some?
    ensures JoinedBytes(txs) == JoinedBytes(txs[..i]) + FromHex(txs[i]).value + JoinedBytes(txs[i+1..])
    decreases |txs|
  {
    hide FromHex;
    var n := |txs| - 1;
    if i < n {
      var front := txs[..n];
      JoinedInOrder(front, i);
      assert front[..i] == txs[..i] && front[i+1..] == txs[i+1..][..n-i-1];
    }
  }

  /** Reading a block built from hex transactions gives back the header, their number and their bytes in order. */
  lemma BlockReadsBack(header80: seq<byte>, coinbase: string, txs: seq<string>)
    requires |header80| == 80 && TxCount(coinbase, txs) < UINT64 && FromHex(coinbase).Some?
    requires forall i :: 0 <= i < |txs| ==> FromHex(txs[i]).Some?
    ensures
      var block := FromHex(BlockText(header80, coinbase, txs));
      block.Some? &&
      ReadBlock(block.value) ==
      Some((header80, |txs| + (if coinbase == "" then 0 else 1), FromHex(coinbase).value + JoinedBytes(txs)))
  {
    hide FromHex, ToHex, Joined, JoinedBytes, CompactSize.Encode, ReadBlock;
    JoinedDecodes(txs);
    var n := TxCount(coinbase, txs);
    var e, cb, body := CompactSize.Encode(n), FromHex(coinbase).value, JoinedBytes(txs);
    FromToHex(header80);
    FromToHex(e);
    FromHexConcat(ToHex(header80), VarInt(n));
    FromHexConcat(ToHex(header80) + VarInt(n), coinbase);
    FromHexConcat(ToHex(header80) + VarInt(n) + coinbase, Joined(txs));
    assert ((header80 + e) + cb) + body == header80 + (e + (cb + body));
    ReadBlockFront(header80, n, cb + body);
  }

  lemma ReadBlockFront(header80: seq<byte>, n: word64, body: seq<byte>)
    requires |header80| == 80
    ensures ReadBlock(header80 + (CompactSize.Encode(n) + body)) == Some((header80, n as nat, body))
  {
    hide Take, CompactSize.Encode, CompactSize.Read;
    TakeFront(header80, CompactSize.Encode(n) + body);
    CompactSize.ReadEncode(n, body);
  }
}
