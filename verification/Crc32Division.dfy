/** CRC-32 as the remainder of a division of polynomials over the two-element field. Section 8 of RFC 1952 and its
    reference to ISO 3309 give the generator by its exponents. */
module Crc32Division {
  import opened Crc32

  /** x^32 + x^26 + ... + x + 1. */
  const GENERATOR: set<nat> := {32, 26, 23, 22, 16, 12, 11, 10, 8, 7, 5, 4, 2, 1, 0}

  /* ---- the bits of a register ---- */

  function Halves(c: bv32, n: nat): bv32
    decreases n
  {
    if n == 0 then c else Halves(Half(c), n - 1)
  }

  /** Bit `i`, the lowest being bit 0. */
  predicate BitOf(c: bv32, i: nat) {
    Odd(Halves(c, i))
  }

  lemma {:induction false} HalvesAdd(c: bv32, m: nat, n: nat)
    ensures Halves(Halves(c, m), n) == Halves(c, m + n)
    decreases m
  {
    hide Half;
    if m > 0 {
      HalvesAdd(Half(c), m - 1, n);
    }
  }

  lemma HalvesEight(c: bv32)
    ensures Halves(c, 8) == High(c)
  {
    hide Half;
    assert Halves(c, 8) == Halves(Half(Half(c)), 6) == Halves(Half(Half(Half(Half(c)))), 4);
    assert Halves(Half(Half(Half(Half(c)))), 4) == Halves(Half(Half(Half(Half(Half(Half(c)))))), 2);
    EightShifts(c);
  }

  lemma EightShifts(c: bv32)
    ensures Half(Half(Half(Half(Half(Half(Half(Half(c)))))))) == High(c)
  {
  }

  /** There is no bit 32. */
  lemma NothingLeft(c: bv32)
    ensures Halves(c, 32) == 0
  {
    HalvesEight(c);
    HalvesAdd(c, 8, 8);
    HalvesEight(High(c));
    HalvesAdd(c, 16, 8);
    HalvesEight(High(High(c)));
    HalvesAdd(c, 24, 8);
    HalvesEight(High(High(High(c))));
    AllGone(c);
  }

  lemma AllGone(c: bv32)
    ensures High(High(High(High(c)))) == 0
  {
  }

  lemma {:induction false} BitXors(a: bv32, b: bv32, i: nat)
    ensures BitOf(Xor(a, b), i) <==> BitOf(a, i) != BitOf(b, i)
    decreases i
  {
    hide Half, Odd, Xor;
    if i == 0 {
      OddXor(a, b);
    } else {
      HalfXor(a, b);
      BitXors(Half(a), Half(b), i - 1);
    }
  }

  lemma BitHalf(c: bv32, i: nat)
    ensures BitOf(Half(c), i) == BitOf(c, i + 1)
  {
  }

  /** A register is known by its bits. */
  lemma {:induction false} SameBits(a: bv32, b: bv32, i: nat)
    requires i <= 32 && forall j :: 0 <= j < 32 ==> BitOf(a, j) == BitOf(b, j)
    ensures Halves(a, i) == Halves(b, i)
    decreases 32 - i
  {
    hide Half, Odd;
    if i == 32 {
      NothingLeft(a);
      NothingLeft(b);
    } else {
      SameBits(a, b, i + 1);
      HalvesAdd(a, i, 1);
      HalvesAdd(b, i, 1);
      assert BitOf(a, i) == BitOf(b, i);
      HalfAndBit(Halves(a, i), Halves(b, i));
    }
  }

  lemma HalfAndBit(x: bv32, y: bv32)
    requires Half(x) == Half(y) && Odd(x) == Odd(y)
    ensures x == y
  {
    LastBit(x);
    LastBit(y);
  }

  /** Some bits of the generator and of a full register, eight at a time. */
  lemma {:induction false} BitsOfByte(c: bv32, q: nat, r: nat)
    requires q < 4 && r < 8
    ensures BitOf(c, 8 * q + r) == BitOf(Bytewise(c, q), r)
  {
    hide Half, High, Odd;
    BytewiseHalves(c, q);
    HalvesAdd(c, 8 * q, r);
  }

  function Bytewise(c: bv32, q: nat): bv32 {
    if q == 0 then c else High(Bytewise(c, q - 1))
  }

  lemma {:induction false} BytewiseHalves(c: bv32, q: nat)
    ensures Halves(c, 8 * q) == Bytewise(c, q)
  {
    hide Half, High;
    if q > 0 {
      BytewiseHalves(c, q - 1);
      HalvesAdd(c, 8 * (q - 1), 8);
      HalvesEight(Bytewise(c, q - 1));
    }
  }

  lemma EightBitsOf(c: bv32)
    ensures BitOf(c, 0) == (c & 1 == 1) && BitOf(c, 1) == (c & 2 == 2) && BitOf(c, 2) == (c & 4 == 4)
    ensures BitOf(c, 3) == (c & 8 == 8) && BitOf(c, 4) == (c & 16 == 16) && BitOf(c, 5) == (c & 32 == 32)
    ensures BitOf(c, 6) == (c & 64 == 64) && BitOf(c, 7) == (c & 128 == 128)
  {
    assert Halves(c, 3) == Half(Half(Half(c))) && Halves(c, 4) == Half(Halves(Half(Half(Half(c))), 0));
  }

  lemma PolyBits(i: nat)
    requires i < 32
    ensures BitOf(POLY, i) == (31 - i in GENERATOR)
  {
    hide BitOf, Bytewise, GENERATOR;
    var q, r := i / 8, i % 8;
    BitsOfByte(POLY, q, r);
    PolyBytes();
    if q == 0 {
      PolyByte0(r);
    } else if q == 1 {
      PolyByte1(r);
    } else if q == 2 {
      PolyByte2(r);
    } else {
      PolyByte3(r);
    }
  }

  lemma PolyBytes()
    ensures Bytewise(POLY, 0) == 0xedb8_8320 && Bytewise(POLY, 1) == 0xed_b883
    ensures Bytewise(POLY, 2) == 0xedb8 && Bytewise(POLY, 3) == 0xed
  {
    assert High(0xedb8_8320) == 0xed_b883 && High(0xed_b883) == 0xedb8 && High(0xedb8) == 0xed;
  }

  lemma PolyByte0(r: nat)
    requires r < 8
    ensures BitOf(0xedb8_8320, r) == (31 - (0 + r) in GENERATOR)
  {
    EightBitsOf(0xedb8_8320);
  }

  lemma PolyByte1(r: nat)
    requires r < 8
    ensures BitOf(0xed_b883, r) == (31 - (8 + r) in GENERATOR)
  {
    EightBitsOf(0xed_b883);
  }

  lemma PolyByte2(r: nat)
    requires r < 8
    ensures BitOf(0xedb8, r) == (31 - (16 + r) in GENERATOR)
  {
    EightBitsOf(0xedb8);
  }

  lemma PolyByte3(r: nat)
    requires r < 8
    ensures BitOf(0xed, r) == (31 - (24 + r) in GENERATOR)
  {
    EightBitsOf(0xed);
  }

  lemma FullBits(i: nat)
    requires i < 32
    ensures BitOf(0xffff_ffff, i)
  {
    var c: bv32 := 0xffff_ffff;
    BitsOfByte(c, i / 8, i % 8);
    FullBytes();
    EightBitsOf(Bytewise(c, i / 8));
  }

  lemma FullBytes()
    ensures Bytewise(0xffff_ffff, 0) == 0xffff_ffff && Bytewise(0xffff_ffff, 1) == 0xff_ffff
    ensures Bytewise(0xffff_ffff, 2) == 0xffff && Bytewise(0xffff_ffff, 3) == 0xff
  {
    assert High(0xffff_ffff) == 0xff_ffff && High(0xff_ffff) == 0xffff && High(0xffff) == 0xff;
  }

  lemma NotBits(c: bv32, i: nat)
    requires i < 32
    ensures BitOf(Not(c), i) == !BitOf(c, i)
  {
    hide BitOf, Xor, Not;
    NotIsXor(c);
    BitXors(c, 0xffff_ffff, i);
    FullBits(i);
  }

  lemma NotIsXor(c: bv32)
    ensures Not(c) == Xor(c, 0xffff_ffff)
  {
  }

  /* ---- polynomials ---- */

  /** Coefficient of x^e in the polynomial whose coefficients are `bits`, the highest first. */
  predicate Coefficient(bits: seq<bool>, e: nat) {
    e < |bits| && bits[|bits| - 1 - e]
  }

  /** Coefficient of x^e in the generator times that polynomial. */
  predicate Multiple(bits: seq<bool>, e: nat)
    decreases |bits|
  {
    bits != [] && (e > 0 && Multiple(bits[..|bits| - 1], e - 1)) != (bits[|bits| - 1] && e in GENERATOR)
  }

  /** A register as a polynomial: its bits are reflected, bit 31 being the constant. */
  predicate Register(c: bv32, e: nat) {
    e < 32 && BitOf(c, 31 - e)
  }

  /** The bits of a byte, the lowest first, as they enter. */
  function ByteBits(b: Byte): (bits: seq<bool>)
    ensures |bits| == 8
  {
    [BitOf(b, 0), BitOf(b, 1), BitOf(b, 2), BitOf(b, 3), BitOf(b, 4), BitOf(b, 5), BitOf(b, 6), BitOf(b, 7)]
  }

  function MessageBits(s: seq<Byte>): (bits: seq<bool>)
    ensures |bits| == 8 * |s|
  {
    if s == [] then [] else MessageBits(s[..|s| - 1]) + ByteBits(s[|s| - 1])
  }

  /** What is divided: the message times x^32, plus the start value in front of it. */
  predicate Dividend(start: bv32, bits: seq<bool>, e: nat) {
    (e >= 32 && Coefficient(bits, e - 32)) != (e >= |bits| && Register(start, e - |bits|))
  }

  /* ---- one bit after the other ---- */

  function One(m: bool): bv32 {
    if m then 1 else 0
  }

  /** The register after one more bit of the message. */
  function Shifted(c: bv32, m: bool): bv32 {
    Bit(Xor(c, One(m)))
  }

  function ShiftedAll(c: bv32, bits: seq<bool>): bv32 {
    if bits == [] then c else Shifted(ShiftedAll(c, bits[..|bits| - 1]), bits[|bits| - 1])
  }

  lemma OneBits(m: bool, i: nat)
    ensures BitOf(One(m), i) == (m && i == 0)
  {
    if i > 0 {
      assert Half(One(m)) == 0;
      ZeroBits(i - 1);
    }
  }

  lemma {:induction false} ZeroBits(i: nat)
    ensures !BitOf(0, i)
  {
    if i > 0 {
      assert Half(0) == 0;
      ZeroBits(i - 1);
    }
  }

  /** A step multiplies by x, adds the bit at x^32, and takes the generator off when x^32 is there. */
  lemma ShiftDivides(c: bv32, m: bool, q: seq<bool>, e: nat, d: bool)
    requires e > 0 ==> d == (Multiple(q, e - 1) != Register(c, e - 1))
    ensures var carry := Odd(Xor(c, One(m)));
            ((e > 0 && d) != (m && e == 32)) == (Multiple(q + [carry], e) != Register(Shifted(c, m), e))
  {
    hide BitOf, GENERATOR, Half, Odd, Xor;
    var x := Xor(c, One(m));
    var carry := Odd(x);
    assert (q + [carry])[..|q|] == q;
    TopBit(c, m);
    if e < 32 {
      var i := 31 - e;
      ShiftedBit(x, i);
      PolyBits(i);
      if e > 0 {
        BitXors(c, One(m), i + 1);
        OneBits(m, i + 1);
      } else {
        NoBit32(x);
      }
    } else {
      GeneratorTop(e);
    }
  }

  lemma GeneratorTop(e: nat)
    requires e >= 32
    ensures e in GENERATOR <==> e == 32
  {
  }

  lemma TopBit(c: bv32, m: bool)
    ensures Odd(Xor(c, One(m))) == (BitOf(c, 0) != m)
  {
    BitXors(c, One(m), 0);
    OneBits(m, 0);
    assert BitOf(Xor(c, One(m)), 0) == Odd(Xor(c, One(m)));
  }

  lemma ShiftedBit(x: bv32, i: nat)
    requires i < 32
    ensures BitOf(Bit(x), i) == (BitOf(x, i + 1) != (Odd(x) && BitOf(POLY, i)))
  {
    hide Half, Odd, Xor;
    BitHalf(x, i);
    BitXors(Half(x), POLY, i);
  }

  lemma NoBit32(c: bv32)
    ensures !BitOf(c, 32)
  {
    NothingLeft(c);
  }

  lemma {:induction false} ShiftedAllDivides(start: bv32, bits: seq<bool>) returns (q: seq<bool>)
    ensures forall e: nat :: Dividend(start, bits, e) == (Multiple(q, e) != Register(ShiftedAll(start, bits), e))
  {
    hide Register;
    if bits == [] {
      q := [];
    } else {
      var front, m := bits[..|bits| - 1], bits[|bits| - 1];
      var c := ShiftedAll(start, front);
      q := ShiftedAllDivides(start, front);
      var q' := q + [Odd(Xor(c, One(m)))];
      forall e: nat
        ensures Dividend(start, bits, e) == (Multiple(q', e) != Register(Shifted(c, m), e))
      {
        DividendStep(start, bits, e);
        ShiftDivides(c, m, q, e, e > 0 && Dividend(start, front, e - 1));
      }
      q := q';
    }
  }

  lemma DividendStep(start: bv32, bits: seq<bool>, e: nat)
    requires bits != []
    ensures var front, m := bits[..|bits| - 1], bits[|bits| - 1];
            Dividend(start, bits, e) == ((e > 0 && Dividend(start, front, e - 1)) != (m && e == 32))
  {
    hide BitOf;
  }

  /* ---- bytes ---- */

  /** Bits of a byte added all at once come out like bits added one after the other. */
  lemma Inject(x: bv32, y: bv32)
    ensures Bit(Xor(x, y)) == Xor(Shifted(x, Odd(y)), Half(y))
  {
    LastBit(y);
    OddXor(x, y);
    OddXor(x, One(Odd(y)));
    InjectHalf(x, y);
    XorPoly(Half(Xor(x, One(Odd(y)))), Half(y), POLY);
  }

  lemma InjectHalf(x: bv32, y: bv32)
    ensures Half(Xor(x, y)) == Xor(Half(Xor(x, One(Odd(y)))), Half(y))
  {
    HalfXor(x, y);
    HalfXor(x, One(Odd(y)));
    assert Half(One(Odd(y))) == 0;
    XorZero(Half(x));
  }

  lemma XorZero(x: bv32)
    ensures Xor(x, 0) == x
  {
  }

  lemma {:induction false} ByteShifted(c: bv32, b: Byte, n: nat)
    requires n <= 8
    ensures Bits(Xor(c, b), n) == Xor(ShiftedAll(c, ByteBits(b)[..n]), Halves(b, n))
  {
    hide Bit, BitOf, Half, Odd, Shifted, Xor;
    if n > 0 {
      var bits := ByteBits(b);
      ByteShifted(c, b, n - 1);
      assert bits[..n][..n - 1] == bits[..n - 1];
      HalvesAdd(b, n - 1, 1);
      ByteBitAt(b, n - 1);
      Inject(ShiftedAll(c, bits[..n - 1]), Halves(b, n - 1));
    } else {
      assert ByteBits(b)[..0] == [];
    }
  }

  lemma ByteBitAt(b: Byte, i: nat)
    requires i < 8
    ensures ByteBits(b)[i] == Odd(Halves(b, i))
  {
    hide Halves, Odd;
  }

  lemma ByteIsBits(c: bv32, b: Byte)
    ensures Bits(Xor(c, b), 8) == ShiftedAll(c, ByteBits(b))
  {
    ByteShifted(c, b, 8);
    HalvesEight(b);
    assert High(b) == 0;
    hide BitOf, Xor;
    assert ByteBits(b)[..8] == ByteBits(b);
    XorZero(ShiftedAll(c, ByteBits(b)));
  }

  lemma {:induction false} ShiftedConcat(c: bv32, a: seq<bool>, b: seq<bool>)
    ensures ShiftedAll(c, a + b) == ShiftedAll(ShiftedAll(c, a), b)
  {
    hide Shifted;
    if b == [] {
      assert a + b == a;
    } else {
      assert (a + b)[..|a + b| - 1] == a + b[..|b| - 1];
      ShiftedConcat(c, a, b[..|b| - 1]);
    }
  }

  lemma {:induction false} FeedIsShifted(c: bv32, s: seq<Byte>)
    ensures Feed(c, s) == ShiftedAll(c, MessageBits(s))
  {
    hide ByteBits, Shifted, Xor, Bits;
    if s != [] {
      var n := |s| - 1;
      FeedIsShifted(c, s[..n]);
      ByteIsBits(Feed(c, s[..n]), s[n]);
      ShiftedConcat(c, MessageBits(s[..n]), ByteBits(s[n]));
    }
  }

  /** The checksum, complemented, is what is left of the message times x^32, the complemented accumulator added in
      front, after a multiple of the generator is taken off. */
  lemma CrcIsRemainder(acc: bv32, s: seq<Byte>) returns (q: seq<bool>)
    ensures forall e: nat ::
              Dividend(Not(acc), MessageBits(s), e) == (Multiple(q, e) != Register(Not(Crc(acc, s)), e))
  {
    hide Dividend, Multiple, Register, Feed, Not;
    q := ShiftedAllDivides(Not(acc), MessageBits(s));
    FeedIsShifted(Not(acc), s);
    NotNot(Feed(Not(acc), s));
  }

  /* ---- there is only one remainder ---- */

  lemma {:induction false} MultipleFront(b: bool, q: seq<bool>, e: nat)
    ensures Multiple([b] + q, e) == ((b && e >= |q| && e - |q| in GENERATOR) != Multiple(q, e))
    decreases |q|
  {
    hide GENERATOR;
    var p := [b] + q;
    if q == [] {
      assert p[..0] == [];
    } else {
      assert p[..|p| - 1] == [b] + q[..|q| - 1];
      if e > 0 {
        MultipleFront(b, q[..|q| - 1], e - 1);
      }
    }
  }

  lemma {:induction false} MultipleDegree(q: seq<bool>, e: nat)
    requires e >= |q| + 32
    ensures !Multiple(q, e)
    decreases |q|
  {
    if q != [] {
      MultipleDegree(q[..|q| - 1], e - 1);
      GeneratorTop(e);
    }
  }

  /** Multiples of the generator that agree from x^32 on have the same factor. */
  lemma {:induction false} SameFactor(p: seq<bool>, q: seq<bool>)
    requires |p| == |q| && forall e: nat :: e >= 32 ==> Multiple(p, e) == Multiple(q, e)
    ensures p == q
    decreases |p|
  {
    if p != [] {
      var n := |p| - 1;
      assert p == [p[0]] + p[1..] && q == [q[0]] + q[1..];
      hide Multiple, GENERATOR;
      forall e: nat
        ensures Multiple(p, e) == ((p[0] && e >= n && e - n in GENERATOR) != Multiple(p[1..], e))
        ensures Multiple(q, e) == ((q[0] && e >= n && e - n in GENERATOR) != Multiple(q[1..], e))
      {
        MultipleFront(p[0], p[1..], e);
        MultipleFront(q[0], q[1..], e);
      }
      GeneratorTop(32);
      MultipleDegree(p[1..], n + 32);
      MultipleDegree(q[1..], n + 32);
      assert Multiple(p, n + 32) == Multiple(q, n + 32);
      SameFactor(p[1..], q[1..]);
    }
  }

  lemma {:induction false} Padded(n: nat, q: seq<bool>, e: nat)
    ensures Multiple(seq(n, _ => false) + q, e) == Multiple(q, e)
  {
    hide Multiple, GENERATOR;
    if n == 0 {
      assert seq(0, _ => false) + q == q;
    } else {
      var p := seq(n - 1, _ => false) + q;
      assert seq(n, _ => false) + q == [false] + p;
      MultipleFront(false, p, e);
      Padded(n - 1, q, e);
    }
  }

  /** A polynomial has one remainder below x^32. */
  lemma RemainderUnique(p: seq<bool>, q: seq<bool>, a: bv32, b: bv32)
    requires forall e: nat :: (Multiple(p, e) != Register(a, e)) == (Multiple(q, e) != Register(b, e))
    ensures a == b
  {
    hide Multiple, BitOf;
    var m, n := if |p| < |q| then |q| - |p| else 0, if |q| < |p| then |p| - |q| else 0;
    var p', q' := seq(m, _ => false) + p, seq(n, _ => false) + q;
    forall e: nat
      ensures Multiple(p', e) == Multiple(p, e) && Multiple(q', e) == Multiple(q, e)
    {
      Padded(m, p, e);
      Padded(n, q, e);
    }
    assert forall e: nat :: (Multiple(p', e) != Register(a, e)) == (Multiple(q', e) != Register(b, e));
    SameFactor(p', q');
    forall j | 0 <= j < 32
      ensures BitOf(a, j) == BitOf(b, j)
    {
      assert Register(a, 31 - j) == Register(b, 31 - j);
    }
    SameBits(a, b, 0);
  }

  /* ---- the check value ---- */

  lemma Check1()
    ensures Bits(Xor(0xffff_ffff, 49), 8) == 0x7c23_1048
  {
    EightBits(Xor(0xffff_ffff, 49));
  }

  lemma Check2()
    ensures Bits(Xor(0x7c23_1048, 50), 8) == 0xb0ac_bb32
  {
    EightBits(Xor(0x7c23_1048, 50));
  }

  lemma Check3()
    ensures Bits(Xor(0xb0ac_bb32, 51), 8) == 0x77b7_9c2d
  {
    EightBits(Xor(0xb0ac_bb32, 51));
  }

  lemma Check4()
    ensures Bits(Xor(0x77b7_9c2d, 52), 8) == 0x641c_1f5c
  {
    EightBits(Xor(0x77b7_9c2d, 52));
  }

  lemma Check5()
    ensures Bits(Xor(0x641c_1f5c, 53), 8) == 0x340a_c5e3
  {
    EightBits(Xor(0x641c_1f5c, 53));
  }

  lemma Check6()
    ensures Bits(Xor(0x340a_c5e3, 54), 8) == 0xf68d_2c9e
  {
    EightBits(Xor(0x340a_c5e3, 54));
  }

  lemma Check7()
    ensures Bits(Xor(0xf68d_2c9e, 55), 8) == 0xaffc_9660
  {
    EightBits(Xor(0xf68d_2c9e, 55));
  }

  lemma Check8()
    ensures Bits(Xor(0xaffc_9660, 56), 8) == 0x651f_2550
  {
    EightBits(Xor(0xaffc_9660, 56));
  }

  lemma Check9()
    ensures Bits(Xor(0x651f_2550, 57), 8) == 0x340b_c6d9
  {
    EightBits(Xor(0x651f_2550, 57));
  }

  lemma FeedMore(c: bv32, s: seq<Byte>, b: Byte)
    ensures Feed(c, s + [b]) == Bits(Xor(Feed(c, s), b), 8)
  {
    hide Bits, Xor;
    assert (s + [b])[..|s|] == s;
  }

  lemma Start()
    ensures Not(0) == 0xffff_ffff && Feed(0xffff_ffff, []) == 0xffff_ffff && Not(0x340b_c6d9) == 0xcbf4_3926
  {
  }

  /** The checksum of the nine digits "123456789". */
  lemma CheckValue()
    ensures Crc(0, [49, 50, 51, 52, 53, 54, 55, 56, 57]) == 0xcbf4_3926
  {
    hide Bits, Feed, Not, Xor;
    var c: bv32 := 0xffff_ffff;
    Start();
    var s1: seq<Byte> := [] + [49];
    FeedMore(c, [], 49);
    Check1();
    var s2: seq<Byte> := s1 + [50];
    FeedMore(c, s1, 50);
    Check2();
    var s3: seq<Byte> := s2 + [51];
    FeedMore(c, s2, 51);
    Check3();
    var s4: seq<Byte> := s3 + [52];
    FeedMore(c, s3, 52);
    Check4();
    var s5: seq<Byte> := s4 + [53];
    FeedMore(c, s4, 53);
    Check5();
    var s6: seq<Byte> := s5 + [54];
    FeedMore(c, s5, 54);
    Check6();
    var s7: seq<Byte> := s6 + [55];
    FeedMore(c, s6, 55);
    Check7();
    var s8: seq<Byte> := s7 + [56];
    FeedMore(c, s7, 56);
    Check8();
    var s9: seq<Byte> := s8 + [57];
    FeedMore(c, s8, 57);
    Check9();
    assert s9 == [49, 50, 51, 52, 53, 54, 55, 56, 57];
  }

}
