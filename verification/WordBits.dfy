/** What the word operations and the functions of section 4.1.2 of FIPS 180-4 compute, bit by bit. */
module WordBits {
  import opened Arithmetic
  import opened Words
  import Spec = Sha256Spec

  /** Bit i of x, from the lowest. */
  predicate Bit(x: nat, i: nat) {
    x / Pow2(i) % 2 == 1
  }

  lemma BitShift(x: nat, i: nat)
    ensures Bit(x, 0) <==> x % 2 == 1
    ensures Bit(x, i + 1) <==> Bit(x / 2, i)
  {
    assert Pow2(0) == 1 && Pow2(i + 1) == 2 * Pow2(i) && x / 1 == x;
    DivDiv(x, 2, Pow2(i));
  }

  lemma {:induction false} BitZero(i: nat)
    ensures !Bit(0, i)
  {
    BitShift(0, if i > 0 then i - 1 else 0);
    if i > 0 {
      BitZero(i - 1);
    }
  }

  /** Bit i of x & y is set exactly when it is set in both. */
  lemma {:induction false} AndBit(x: nat, y: nat, i: nat)
    ensures Bit(BitAnd(x, y), i) <==> Bit(x, i) && Bit(y, i)
    decreases i
  {
    hide Bit;
    BitZero(i);
    var r, j := BitAnd(x, y), if i > 0 then i - 1 else 0;
    assert x > 0 && y > 0 ==> r / 2 == BitAnd(x / 2, y / 2) && (r % 2 == 1 <==> x % 2 == 1 && y % 2 == 1);
    BitShift(x, j);
    BitShift(y, j);
    BitShift(r, j);
    if i > 0 {
      AndBit(x / 2, y / 2, i - 1);
    }
  }

  /** Bit i of x ^ y is set exactly when it is set in one of them. */
  lemma {:induction false} XorBit(x: nat, y: nat, i: nat)
    ensures Bit(BitXor(x, y), i) <==> Bit(x, i) != Bit(y, i)
    decreases i
  {
    hide Bit;
    BitZero(i);
    var r, j := BitXor(x, y), if i > 0 then i - 1 else 0;
    assert x > 0 ==> r / 2 == BitXor(x / 2, y / 2) && (r % 2 == 1 <==> x % 2 != y % 2);
    BitShift(x, j);
    BitShift(y, j);
    BitShift(r, j);
    if i > 0 && x > 0 {
      XorBit(x / 2, y / 2, i - 1);
    }
  }

  /** Every bit of ~x is the opposite of the bit of x. */
  lemma NotBit(x: word, i: nat)
    requires i < 32
    ensures Bit(Not(x), i) <==> !Bit(x, i)
  {
    Pow2Word();
    Complement(x, 32, i);
  }

  lemma {:induction false} Complement(x: nat, n: nat, i: nat)
    requires x < Pow2(n) && i < n
    ensures Bit(Pow2(n) - 1 - x, i) <==> !Bit(x, i)
    decreases i
  {
    hide Bit;
    var c, j := Pow2(n) - 1 - x, if i > 0 then i - 1 else 0;
    assert Pow2(n) == 2 * Pow2(n - 1);
    assert c / 2 == Pow2(n - 1) - 1 - x / 2 && c % 2 == 1 - x % 2;
    BitShift(x, j);
    BitShift(c, j);
    if i > 0 {
      Complement(x / 2, n - 1, i - 1);
    }
  }

  /** x >> n divides by 2^n. */
  lemma {:induction false} ShrIs(x: word, n: nat)
    ensures Shr(x, n) == x / Pow2(n)
    decreases n
  {
    if n == 0 {
      assert x / 1 == x;
    } else {
      ShrIs(x / 2, n - 1);
      DivDiv(x, 2, Pow2(n - 1));
    }
  }

  /** The word after one rotation by one bit. */
  function RotateOne(x: word): word {
    x / 2 + x % 2 * 0x8000_0000
  }

  /** Cut at 2^31 == q * p, the rotated word has the same low part and the bit that came round q places up. */
  lemma RotatedParts(x: word, p: nat, q: nat)
    requires p > 0 && q * p == 0x8000_0000
    ensures RotateOne(x) / p == x / 2 / p + x % 2 * q && RotateOne(x) % p == x / 2 % p
  {
    var h, b := x / 2, x % 2;
    DivMod(h, p);
    MulAssoc(b, q, p);
    MulDistribute(h / p, b * q, p);
    ModUnique(RotateOne(x), p, h / p + b * q, h % p);
  }

  lemma WholeParts(x: word, p: nat)
    requires p > 0
    ensures x / (2 * p) == x / 2 / p && x % (2 * p) == 2 * (x / 2 % p) + x % 2
  {
    var h := x / 2;
    DivMod(h, p);
    MulAssoc(h / p, 2, p);
    assert h / p * (2 * p) == 2 * (h / p * p) by { MulAssoc(2, h / p, p); }
    ModUnique(x, 2 * p, h / p, 2 * (h % p) + x % 2);
  }

  lemma OneMore(x: word, p: nat, q: nat)
    requires p > 0 && q * p == 0x8000_0000
    ensures RotateOne(x) / p + RotateOne(x) % p * (2 * q) == x / (2 * p) + x % (2 * p) * q
  {
    RotatedParts(x, p, q);
    WholeParts(x, p);
    hide RotateOne;
    RotatedSum(x / 2 / p, x / 2 % p, x % 2, q);
  }

  /** Rotating right by n puts the low n bits on top of the others. */
  lemma {:induction false} RotrIs(x: word, n: nat)
    requires n <= 32
    ensures Rotr(x, n) == x / Pow2(n) + x % Pow2(n) * Pow2(32 - n)
    decreases n
  {
    if n == 0 {
      assert x / 1 == x && x % 1 == 0;
    } else {
      RotrStep(x, n);
      hide Rotr, RotateOne;
      RotrIs(RotateOne(x), n - 1);
      TopPower(n);
      OneMore(x, Pow2(n - 1), Pow2(32 - n));
      assert Pow2(n) == 2 * Pow2(n - 1) && Pow2(33 - n) == 2 * Pow2(32 - n);
    }
  }

  lemma RotatedSum(a: nat, r: nat, b: nat, q: nat)
    ensures a + b * q + r * (2 * q) == a + (2 * r + b) * q
  {
    MulDistribute(2 * r, b, q);
    MulAssoc(r, 2, q);
  }

  lemma {:induction false} PowSum(m: nat, n: nat)
    ensures Pow2(m + n) == Pow2(m) * Pow2(n)
  {
    if m > 0 {
      PowSum(m - 1, n);
      MulAssoc(2, Pow2(m - 1), Pow2(n));
    }
  }

  lemma TopPower(n: nat)
    requires 1 <= n <= 32
    ensures Pow2(32 - n) * Pow2(n - 1) == 0x8000_0000
  {
    PowSum(32 - n, n - 1);
    Pow2Word();
    assert Pow2(32) == 2 * Pow2(31);
  }

  /** One place at a time: the bits move down. */
  lemma MovedDown(x: word, i: nat)
    requires i < 31
    ensures Bit(RotateOne(x), i) <==> Bit(x, i + 1)
  {
    var p, q := Pow2(31 - i), Pow2(i);
    TopPower(i + 1);
    BitShift(x, i);
    assert p == 2 * Pow2(30 - i);
    ParityKept(x, p, q, Pow2(30 - i));
    hide Pow2, RotateOne;
  }

  lemma ParityKept(x: word, p: nat, q: nat, r: nat)
    requires q > 0 && p == 2 * r && p * q == 0x8000_0000
    ensures RotateOne(x) / q % 2 == x / 2 / q % 2
  {
    hide RotateOne;
    RotatedParts(x, q, p);
    EvenAdded(x / 2 / q, x % 2, r);
  }

  lemma EvenAdded(a: nat, b: nat, r: nat)
    ensures (a + b * (2 * r)) % 2 == a % 2
  {
    MulAssoc(b, r, 2);
  }

  /** And the lowest comes round to the top. */
  lemma ComeRound(x: word)
    ensures Bit(RotateOne(x), 31) <==> Bit(x, 0)
  {
    BitShift(x, 0);
    TopPower(32);
    assert Pow2(0) == 1;
    RotatedParts(x, 0x8000_0000, 1);
    assert x / 2 / 0x8000_0000 == 0;
    hide RotateOne;
  }

  lemma NextPlace(i: nat, n: nat)
    requires n > 0
    ensures (i + n) % 32 == if (i + n - 1) % 32 < 31 then (i + n - 1) % 32 + 1 else 0
  {
    var m := i + n - 1;
    DivMod(m, 32);
    if m % 32 < 31 {
      ModUnique(m + 1, 32, m / 32, m % 32 + 1);
    } else {
      ModUnique(m + 1, 32, m / 32 + 1, 0);
    }
  }

  /** Bit i of the rotated word is bit i + n of the word, counted round. */
  lemma {:induction false} RotrBit(x: word, n: nat, i: nat)
    requires n <= 32 && i < 32
    ensures Bit(Rotr(x, n), i) <==> Bit(x, (i + n) % 32)
    decreases n
  {
    hide Bit, RotateOne;
    if n > 0 {
      assert Rotr(x, n) == Rotr(RotateOne(x), n - 1) by { RotrStep(x, n); }
      hide Rotr;
      RotrBit(RotateOne(x), n - 1, i);
      NextPlace(i, n);
      var m := (i + n - 1) % 32;
      if m < 31 {
        MovedDown(x, m);
      } else {
        ComeRound(x);
      }
    }
  }

  lemma RotrStep(x: word, n: nat)
    requires n > 0
    ensures Rotr(x, n) == Rotr(RotateOne(x), n - 1)
  {
  }

  lemma {:induction false} ShrBit(x: word, n: nat, i: nat)
    ensures Bit(Shr(x, n), i) <==> Bit(x, i + n)
    decreases n
  {
    hide Bit;
    if n > 0 {
      ShrBit(x / 2, n - 1, i);
      BitShift(x, i + n - 1);
    }
  }

  /** Three words combined by exclusive or. */
  lemma Xor3Bit(x: word, y: word, z: word, i: nat)
    ensures Bit(Xor(Xor(x, y), z), i) <==> (Bit(x, i) != Bit(y, i)) != Bit(z, i)
  {
    XorBit(x, y, i);
    XorBit(BitXor(x, y), z, i);
    hide Bit, BitXor;
  }

  /** Ch chooses the bit of y or of z as the bit of x says. */
  lemma ChBit(x: word, y: word, z: word, i: nat)
    requires i < 32
    ensures Bit(Spec.Ch(x, y, z), i) <==> if Bit(x, i) then Bit(y, i) else Bit(z, i)
  {
    AndBit(x, y, i);
    AndBit(Not(x), z, i);
    NotBit(x, i);
    XorBit(And(x, y), And(Not(x), z), i);
    hide Bit, BitXor, BitAnd, Not;
  }

  /** Maj takes the majority of the three bits. */
  lemma MajBit(x: word, y: word, z: word, i: nat)
    ensures Bit(Spec.Maj(x, y, z), i) <==>
      (Bit(x, i) && Bit(y, i)) || (Bit(x, i) && Bit(z, i)) || (Bit(y, i) && Bit(z, i))
  {
    AndBit(x, y, i);
    AndBit(x, z, i);
    AndBit(y, z, i);
    Xor3Bit(And(x, y), And(x, z), And(y, z), i);
    hide Bit, BitXor, BitAnd;
  }

  /** The bits each of the four sigma functions adds up without carry. */
  lemma SigmaBits(x: word, i: nat)
    requires i < 32
    ensures Bit(Spec.BigSigma0(x), i) <==> (Bit(x, (i + 2) % 32) != Bit(x, (i + 13) % 32)) != Bit(x, (i + 22) % 32)
    ensures Bit(Spec.BigSigma1(x), i) <==> (Bit(x, (i + 6) % 32) != Bit(x, (i + 11) % 32)) != Bit(x, (i + 25) % 32)
    ensures Bit(Spec.SmallSigma0(x), i) <==> (Bit(x, (i + 7) % 32) != Bit(x, (i + 18) % 32)) != Bit(x, i + 3)
    ensures Bit(Spec.SmallSigma1(x), i) <==> (Bit(x, (i + 17) % 32) != Bit(x, (i + 19) % 32)) != Bit(x, i + 10)
  {
    hide Bit, Xor, Rotr, Shr;
    RotatedBits(x, 2, 13, 22, i);
    RotatedBits(x, 6, 11, 25, i);
    ShiftedBits(x, 7, 18, 3, i);
    ShiftedBits(x, 17, 19, 10, i);
  }

  lemma RotatedBits(x: word, l: nat, m: nat, n: nat, i: nat)
    requires i < 32 && l <= 32 && m <= 32 && n <= 32
    ensures Bit(Xor(Xor(Rotr(x, l), Rotr(x, m)), Rotr(x, n)), i) <==>
      (Bit(x, (i + l) % 32) != Bit(x, (i + m) % 32)) != Bit(x, (i + n) % 32)
  {
    hide Bit, Xor, Rotr;
    RotrBit(x, l, i);
    RotrBit(x, m, i);
    RotrBit(x, n, i);
    Xor3Bit(Rotr(x, l), Rotr(x, m), Rotr(x, n), i);
  }

  lemma ShiftedBits(x: word, l: nat, m: nat, n: nat, i: nat)
    requires i < 32 && l <= 32 && m <= 32
    ensures Bit(Xor(Xor(Rotr(x, l), Rotr(x, m)), Shr(x, n)), i) <==>
      (Bit(x, (i + l) % 32) != Bit(x, (i + m) % 32)) != Bit(x, i + n)
  {
    hide Bit, Xor, Rotr, Shr;
    RotrBit(x, l, i);
    RotrBit(x, m, i);
    ShrBit(x, n, i);
    Xor3Bit(Rotr(x, l), Rotr(x, m), Shr(x, n), i);
  }

  /** A word is the sum of its set bits, so its bits determine it. */
  lemma {:induction false} SameBits(x: nat, y: nat, n: nat)
    requires x < Pow2(n) && y < Pow2(n) && forall i :: 0 <= i < n ==> Bit(x, i) == Bit(y, i)
    ensures x == y
    decreases n
  {
    hide Bit;
    if n > 0 {
      BitShift(x, 0);
      BitShift(y, 0);
      forall i | 0 <= i < n - 1
        ensures Bit(x / 2, i) == Bit(y / 2, i)
      {
        BitShift(x, i);
        BitShift(y, i);
        assert Bit(x, i + 1) == Bit(y, i + 1);
      }
      SameBits(x / 2, y / 2, n - 1);
    }
  }

  /** The sum drops the carry out of the top bit, and nothing else. */
  lemma AddIs(x: word, y: word)
    ensures Add(x, y) == if x + y < 0x1_0000_0000 then x + y else x + y - 0x1_0000_0000
  {
  }

  /** Wrapping sums are the remainder of the whole sum. */
  lemma Sum4(p: word, q: word, r: word, t: word)
    ensures Add(Add(Add(p, q), r), t) == (p + q + r + t) % 0x1_0000_0000
  {
    ModAdd(p + q, r, 0x1_0000_0000);
    ModAdd(p + q + r, t, 0x1_0000_0000);
  }

  lemma Sum5(p: word, q: word, r: word, t: word, u: word)
    ensures Add(Add(Add(Add(p, q), r), t), u) == (p + q + r + t + u) % 0x1_0000_0000
  {
    Sum4(p, q, r, t);
    ModAdd(p + q + r + t, u, 0x1_0000_0000);
  }

  lemma AddMod(a: nat, b: nat, x: word, y: word)
    requires x == a % 0x1_0000_0000 && y == b % 0x1_0000_0000
    ensures Add(x, y) == (a + b) % 0x1_0000_0000
  {
    ModAdd(a, y, 0x1_0000_0000);
    ModAdd(b, a, 0x1_0000_0000);
  }

  /** Step 1 of section 6.2.2: the schedule repeats the block and then adds up four earlier words, two of them mixed. */
  lemma ScheduleIs(block: seq<word>, t: nat)
    requires |block| == 16
    ensures t < 16 ==> Spec.W(block, t) == block[t]
    ensures t >= 16 ==>
      Spec.W(block, t) == (Spec.SmallSigma1(Spec.W(block, t - 2)) + Spec.W(block, t - 7) +
        Spec.SmallSigma0(Spec.W(block, t - 15)) + Spec.W(block, t - 16)) % 0x1_0000_0000
  {
    hide Spec.SmallSigma0, Spec.SmallSigma1, Add;
    if t >= 16 {
      Sum4(Spec.SmallSigma1(Spec.W(block, t - 2)), Spec.W(block, t - 7), Spec.SmallSigma0(Spec.W(block, t - 15)),
        Spec.W(block, t - 16));
    }
  }

  /** Step 3 of section 6.2.2: two of the working variables are sums, and the others move on. */
  lemma RoundIs(v: Spec.Vars, k: word, w: word)
    ensures
      var t1 := v.h + Spec.BigSigma1(v.e) + Spec.Ch(v.e, v.f, v.g) + k + w;
      var t2 := Spec.BigSigma0(v.a) + Spec.Maj(v.a, v.b, v.c);
      var v' := Spec.Round(v, k, w);
      && v'.a == (t1 + t2) % 0x1_0000_0000 && v'.e == (v.d + t1) % 0x1_0000_0000
      && v'.b == v.a && v'.c == v.b && v'.d == v.c && v'.f == v.e && v'.g == v.f && v'.h == v.g
  {
    hide Spec.BigSigma0, Spec.BigSigma1, Spec.Ch, Spec.Maj, Add;
    var s0, maj := Spec.BigSigma0(v.a), Spec.Maj(v.a, v.b, v.c);
    RoundSums(v.h, Spec.BigSigma1(v.e), Spec.Ch(v.e, v.f, v.g), k, w, s0, maj, v.d);
  }

  lemma RoundSums(h: word, s1: word, ch: word, k: word, w: word, s0: word, maj: word, d: word)
    ensures
      var t1, sum := Add(Add(Add(Add(h, s1), ch), k), w), h + s1 + ch + k + w;
      && Add(t1, Add(s0, maj)) == (sum + (s0 + maj)) % 0x1_0000_0000 && Add(d, t1) == (d + sum) % 0x1_0000_0000
  {
    var t1, sum := Add(Add(Add(Add(h, s1), ch), k), w), h + s1 + ch + k + w;
    assert Add(s0, maj) == (s0 + maj) % 0x1_0000_0000 && d == d % 0x1_0000_0000;
    Sum5(h, s1, ch, k, w);
    hide Add;
    AddMod(sum, s0 + maj, t1, Add(s0, maj));
    AddMod(d, sum, d, t1);
  }

  /** Step 4 of section 6.2.2: every word of the state is raised by its variable after 64 rounds. */
  lemma CompressIs(s: seq<word>, block: seq<word>)
    requires |s| == 8 && |block| == 16
    ensures
      var v := Spec.Rounds(Spec.FromState(s), Spec.Schedule(block));
      Spec.Compress(s, block) ==
      [(s[0] + v.a) % 0x1_0000_0000, (s[1] + v.b) % 0x1_0000_0000, (s[2] + v.c) % 0x1_0000_0000,
       (s[3] + v.d) % 0x1_0000_0000, (s[4] + v.e) % 0x1_0000_0000, (s[5] + v.f) % 0x1_0000_0000,
       (s[6] + v.g) % 0x1_0000_0000, (s[7] + v.h) % 0x1_0000_0000]
  {
    hide Spec.Rounds, Spec.Schedule, Spec.FromState;
  }
}
