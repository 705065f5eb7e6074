/** CRC-32 (shash.c): bit by bit, and several bytes per step through tables. Section 8 of RFC 1952. */
module Crc32 {

  const POLY: bv32 := 0xedb88320

  type Byte = x: bv32 | x < 256

  function Xor(a: bv32, b: bv32): bv32 {
    a ^ b
  }

  function Not(c: bv32): bv32 {
    !c
  }

  function Low(c: bv32): Byte {
    LowIsByte(c);
    c & 0xff
  }

  lemma LowIsByte(c: bv32)
    ensures c & 0xff < 256
  {
  }

  function High(c: bv32): bv32 {
    c >> 8
  }

  predicate Odd(c: bv32) {
    c & 1 == 1
  }

  function Half(c: bv32): bv32 {
    c >> 1
  }

  /** One bit: the register shifts right, and the polynomial is added when a one drops out. */
  function Bit(c: bv32): bv32 {
    if Odd(c) then Xor(Half(c), POLY) else Half(c)
  }

  function Bits(c: bv32, n: nat): bv32 {
    if n == 0 then c else Bit(Bits(c, n - 1))
  }

  /** `n` bytes worth of bits. */
  function Bytes(c: bv32, n: nat): bv32 {
    if n == 0 then c else Bits(Bytes(c, n - 1), 8)
  }

  /** The register after the bytes of `s`. */
  function Feed(c: bv32, s: seq<Byte>): bv32 {
    if s == [] then c else Bits(Xor(Feed(c, s[..|s| - 1]), s[|s| - 1]), 8)
  }

  function Crc(acc: bv32, s: seq<Byte>): bv32 {
    Not(Feed(Not(acc), s))
  }

  /* ---- feeding in pieces ---- */

  lemma {:induction false} FeedConcat(c: bv32, x: seq<Byte>, y: seq<Byte>)
    ensures Feed(Feed(c, x), y) == Feed(c, x + y)
  {
    hide Bits, Xor;
    if y == [] {
      assert x + y == x;
    } else {
      var z := y[..|y| - 1];
      FeedConcat(c, x, z);
      assert (x + y)[..|x + y| - 1] == x + z;
    }
  }

  lemma NotNot(c: bv32)
    ensures Not(Not(c)) == c
  {
  }

  /** The checksum of the first part is the accumulator for the second. */
  lemma CrcConcat(acc: bv32, x: seq<Byte>, y: seq<Byte>)
    ensures Crc(Crc(acc, x), y) == Crc(acc, x + y)
  {
    hide Feed, Not;
    NotNot(Feed(Not(acc), x));
    FeedConcat(Not(acc), x, y);
  }

  /* ---- linearity ---- */

  lemma HalfXor(a: bv32, b: bv32)
    ensures Half(Xor(a, b)) == Xor(Half(a), Half(b))
  {
  }

  lemma LastBit(c: bv32)
    ensures c & 1 == 0 || c & 1 == 1
  {
  }

  lemma AndXor(a: bv32, b: bv32)
    ensures (a ^ b) & 1 == (a & 1) ^ (b & 1)
  {
  }

  lemma OddXor(a: bv32, b: bv32)
    ensures Odd(Xor(a, b)) <==> Odd(a) != Odd(b)
  {
    AndXor(a, b);
    LastBit(a);
    LastBit(b);
  }

  lemma XorAssoc(x: bv32, y: bv32, p: bv32)
    ensures Xor(Xor(x, y), p) == Xor(x, Xor(y, p))
  {
  }

  lemma XorComm(x: bv32, y: bv32)
    ensures Xor(x, y) == Xor(y, x)
  {
  }

  lemma XorCancel(x: bv32, p: bv32)
    ensures Xor(Xor(x, p), p) == x
  {
  }

  lemma XorPoly(x: bv32, y: bv32, p: bv32)
    ensures Xor(Xor(x, y), p) == Xor(Xor(x, p), y) == Xor(x, Xor(y, p)) && Xor(Xor(x, p), Xor(y, p)) == Xor(x, y)
  {
    hide Xor;
    XorAssoc(x, y, p);
    XorComm(y, p);
    XorAssoc(x, p, y);
    XorAssoc(Xor(x, p), y, p);
    XorAssoc(Xor(x, y), p, p);
    XorCancel(Xor(x, y), p);
  }

  lemma BitXor(a: bv32, b: bv32)
    ensures Bit(Xor(a, b)) == Xor(Bit(a), Bit(b))
  {
    hide Half, Odd, Xor;
    HalfXor(a, b);
    OddXor(a, b);
    XorPoly(Half(a), Half(b), POLY);
  }

  lemma {:induction false} BitsXor(a: bv32, b: bv32, n: nat)
    ensures Bits(Xor(a, b), n) == Xor(Bits(a, n), Bits(b, n))
  {
    hide Bit, Xor;
    if n > 0 {
      BitsXor(a, b, n - 1);
      BitXor(Bits(a, n - 1), Bits(b, n - 1));
    }
  }

  lemma {:induction false} BytesXor(a: bv32, b: bv32, n: nat)
    ensures Bytes(Xor(a, b), n) == Xor(Bytes(a, n), Bytes(b, n))
  {
    hide Bits, Xor;
    if n > 0 {
      BytesXor(a, b, n - 1);
      BitsXor(Bytes(a, n - 1), Bytes(b, n - 1), 8);
    }
  }

  lemma {:induction false} BytesAdd(c: bv32, m: nat, n: nat)
    ensures Bytes(Bytes(c, m), n) == Bytes(c, m + n)
  {
    hide Bits;
    if n > 0 {
      BytesAdd(c, m, n - 1);
    }
  }

  function Left(w: bv32, k: bv6): bv32
    requires k <= 8
  {
    w << k
  }

  /* A zero bit just drops out. */

  lemma OneShift(w: bv32)
    requires w < 0x100_0000
    ensures (w << 1) & 1 == 0 && (w << 1) >> 1 == w
  {
  }

  lemma ZeroBit1(w: bv32)
    requires w < 0x100_0000
    ensures Bit(Left(w, 1)) == w
  {
    OneShift(w);
  }

  lemma ZeroBit2(w: bv32)
    requires w < 0x100_0000
    ensures Bit(Left(w, 2)) == Left(w, 1)
  {
    assert (w << 2) & 1 == 0 && (w << 2) >> 1 == w << 1;
  }

  lemma ZeroBit3(w: bv32)
    requires w < 0x100_0000
    ensures Bit(Left(w, 3)) == Left(w, 2)
  {
    assert (w << 3) & 1 == 0 && (w << 3) >> 1 == w << 2;
  }

  lemma ZeroBit4(w: bv32)
    requires w < 0x100_0000
    ensures Bit(Left(w, 4)) == Left(w, 3)
  {
    assert (w << 4) & 1 == 0 && (w << 4) >> 1 == w << 3;
  }

  lemma ZeroBit5(w: bv32)
    requires w < 0x100_0000
    ensures Bit(Left(w, 5)) == Left(w, 4)
  {
    assert (w << 5) & 1 == 0 && (w << 5) >> 1 == w << 4;
  }

  lemma ZeroBit6(w: bv32)
    requires w < 0x100_0000
    ensures Bit(Left(w, 6)) == Left(w, 5)
  {
    assert (w << 6) & 1 == 0 && (w << 6) >> 1 == w << 5;
  }

  lemma ZeroBit7(w: bv32)
    requires w < 0x100_0000
    ensures Bit(Left(w, 7)) == Left(w, 6)
  {
    assert (w << 7) & 1 == 0 && (w << 7) >> 1 == w << 6;
  }

  lemma ZeroBit8(w: bv32)
    requires w < 0x100_0000
    ensures Bit(Left(w, 8)) == Left(w, 7)
  {
    assert (w << 8) & 1 == 0 && (w << 8) >> 1 == w << 7;
  }

  lemma EightBits(c: bv32)
    ensures Bits(c, 8) == Bit(Bit(Bit(Bit(Bit(Bit(Bit(Bit(c))))))))
  {
    hide Bit;
    assert Bits(c, 0) == c && Bits(c, 1) == Bit(c) && Bits(c, 2) == Bit(Bit(c));
    assert Bits(c, 4) == Bit(Bits(c, 3)) && Bits(c, 3) == Bit(Bits(c, 2));
    assert Bits(c, 6) == Bit(Bits(c, 5)) && Bits(c, 5) == Bit(Bits(c, 4));
    assert Bits(c, 8) == Bit(Bits(c, 7)) && Bits(c, 7) == Bit(Bits(c, 6));
  }

  /** Eight zero bits drop out. */
  lemma LowByteGone(w: bv32)
    requires w < 0x100_0000
    ensures Bits(Left(w, 8), 8) == w
  {
    hide Bit, Left;
    EightBits(Left(w, 8));
    ZeroBit8(w);
    ZeroBit7(w);
    ZeroBit6(w);
    ZeroBit5(w);
    ZeroBit4(w);
    ZeroBit3(w);
    ZeroBit2(w);
    ZeroBit1(w);
  }

  lemma LowAndRest(c: bv32)
    ensures c == Xor(Left(High(c), 8), Low(c)) && High(c) < 0x100_0000
  {
  }

  /** One byte through a table of the byte's own remainders. */
  lemma ByteStep(c: bv32)
    ensures Bits(c, 8) == Xor(High(c), Bits(Low(c), 8))
  {
    hide Bits, High, Left, Low, Xor;
    LowAndRest(c);
    BitsXor(Left(High(c), 8), Low(c), 8);
    LowByteGone(High(c));
  }

  /* ---- words of four bytes ---- */

  /** A little-endian word. */
  function Word(s: seq<Byte>, i: nat): bv32
    requires i + 4 <= |s|
  {
    Xor(s[i], Left(Xor(s[i + 1], Left(Xor(s[i + 2], Left(s[i + 3], 8)), 8)), 8))
  }

  lemma ByteOver(x: Byte, w: bv32)
    requires w < 0x1_0000
    ensures Xor(x, Left(w, 8)) < 0x100_0000
  {
  }

  lemma ByteOverByte(x: Byte, w: bv32)
    requires w < 0x100
    ensures Xor(x, Left(w, 8)) < 0x1_0000
  {
  }

  lemma XorSwap(a: bv32, b: bv32, c: bv32)
    ensures Xor(a, Xor(b, c)) == Xor(Xor(a, b), c) && Xor(a, b) == Xor(b, a)
  {
  }

  /** A byte at the bottom of a word is consumed first; the rest stays. */
  lemma FrontByte(c: bv32, x: Byte, w: bv32)
    requires w < 0x100_0000
    ensures Bits(Xor(c, Xor(x, Left(w, 8))), 8) == Xor(Bits(Xor(c, x), 8), w)
  {
    hide Bits, Left, Xor;
    XorSwap(c, x, Left(w, 8));
    BitsXor(Xor(c, x), Left(w, 8), 8);
    LowByteGone(w);
  }

  lemma FeedOne(c: bv32, s: seq<Byte>, i: nat)
    requires i < |s|
    ensures Feed(c, s[..i + 1]) == Bits(Xor(Feed(c, s[..i]), s[i]), 8)
  {
    hide Bits, Xor;
    assert s[..i + 1][..i] == s[..i];
  }

  /** Four bytes at once. */
  lemma FeedWord(c: bv32, s: seq<Byte>, i: nat)
    requires i + 4 <= |s|
    ensures Feed(c, s[..i + 4]) == Bytes(Xor(Feed(c, s[..i]), Word(s, i)), 4)
  {
    hide Bits, Feed, Left, Xor;
    var w3 := s[i + 3];
    var w2 := Xor(s[i + 2], Left(w3, 8));
    var w1 := Xor(s[i + 1], Left(w2, 8));
    var f0, f1, f2, f3 := Feed(c, s[..i]), Feed(c, s[..i + 1]), Feed(c, s[..i + 2]), Feed(c, s[..i + 3]);
    ByteOverByte(s[i + 2], w3);
    ByteOver(s[i + 1], w2);
    FeedOne(c, s, i);
    FeedOne(c, s, i + 1);
    FeedOne(c, s, i + 2);
    FeedOne(c, s, i + 3);
    FrontByte(f0, s[i], w1);
    FrontByte(f1, s[i + 1], w2);
    FrontByte(f2, s[i + 2], w3);
    var b := Xor(f0, Word(s, i));
    assert Bytes(b, 1) == Xor(f1, w1);
    assert Bytes(b, 2) == Xor(f2, w2);
    assert Bytes(b, 3) == Xor(f3, w3);
  }

  /** Byte `n` of a word. */
  function ByteOf(w: bv32, n: nat): Byte {
    match n
    case 0 => Low(w)
    case 1 => Low(High(w))
    case 2 => Low(High(High(w)))
    case _ => Low(High(High(High(w))))
  }

  function Sum4(a: bv32, b: bv32, c: bv32, d: bv32): bv32 {
    Xor(Xor(Xor(a, b), c), d)
  }

  lemma BytesSum4(a: bv32, b: bv32, c: bv32, d: bv32, k: nat)
    ensures Bytes(Sum4(a, b, c, d), k) == Sum4(Bytes(a, k), Bytes(b, k), Bytes(c, k), Bytes(d, k))
  {
    hide Bytes, Xor;
    BytesXor(Xor(Xor(a, b), c), d, k);
    BytesXor(Xor(a, b), c, k);
    BytesXor(a, b, k);
  }

  lemma LastHigh(w: bv32)
    ensures High(High(High(High(w)))) == 0
  {
  }

  lemma XorZero(w: bv32)
    ensures Xor(0, w) == w
  {
  }

  /** Four bytes' worth of bits over a word, byte by byte. */
  lemma WordByTable(w: bv32)
    ensures Bytes(w, 4) == Sum4(Bytes(ByteOf(w, 3), 1), Bytes(ByteOf(w, 2), 2), Bytes(ByteOf(w, 1), 3),
                                Bytes(ByteOf(w, 0), 4))
  {
    hide Bits, High, Low, Xor;
    var h1 := High(w);
    var h2 := High(h1);
    var h3 := High(h2);
    LastHigh(w);
    OneMore(w, 3);
    OneMore(h1, 2);
    OneMore(h2, 1);
    OneMore(h3, 0);
    XorZero(Bytes(Low(h3), 1));
  }

  lemma OneMore(w: bv32, n: nat)
    ensures Bytes(w, n + 1) == Xor(Bytes(High(w), n), Bytes(Low(w), n + 1))
  {
    hide Bits, High, Low, Xor;
    ByteStep(w);
    BytesAdd(w, 1, n);
    BytesAdd(Low(w), 1, n);
    assert Bytes(w, 1) == Bits(Bytes(w, 0), 8) && Bytes(Low(w), 1) == Bits(Bytes(Low(w), 0), 8);
    BytesXor(High(w), Bits(Low(w), 8), n);
  }

  /* ---- the tables ---- */

  const ZEROS: seq<bv32> := seq(256, _ => 0)

  type Row = s: seq<bv32> | |s| == 256 witness ZEROS

  const ZERO_ROWS: seq<Row> := seq(16, _ => ZEROS)

  type Table = s: seq<Row> | |s| == 16 witness ZERO_ROWS

  function Index(x: Byte): (i: nat)
    ensures i < 256
  {
    x as int
  }

  lemma IndexDistinct(x: Byte, y: Byte)
    requires x != y
    ensures Index(x) != Index(y)
  {
  }

  /** Row `k` holds what a byte becomes after `k + 1` bytes' worth of bits. */
  ghost predicate Entry(row: Row, k: nat, x: Byte) {
    row[Index(x)] == Bytes(x, k + 1)
  }

  /** ... for the bytes below `n`. */
  ghost predicate Filled(row: Row, k: nat, n: bv32) {
    forall x: Byte :: x < n ==> Entry(row, k, x)
  }

  ghost predicate TableOk(t: Table) {
    forall k: nat :: k < 16 ==> Filled(t[k], k, 256)
  }

  /** The generator's recurrence is one more byte's worth of bits. */
  lemma NextEntry(x: Byte, k: nat)
    requires k >= 1
    ensures Bytes(x, k + 1) == Xor(High(Bytes(x, k)), Bytes(Low(Bytes(x, k)), 1))
  {
    hide Bits, High, Low, Xor;
    var y := Bytes(x, k);
    ByteStep(y);
    assert Bytes(Low(y), 1) == Bits(Bytes(Low(y), 0), 8);
  }

  /** Eight single-bit steps. */
  method BitLoop(c: bv32) returns (crc: bv32)
    ensures crc == Bits(c, 8)
  {
    crc := c;
    var j := 0;
    while j < 8
      invariant j <= 8 && crc == Bits(c, j)
    {
      var b0 := crc & 1;
      crc := crc >> 1;
      if b0 == 1 {
        crc := crc ^ POLY;
      }
      j := j + 1;
    }
  }

  lemma FilledMore(row: Row, k: nat, n: Byte)
    requires Filled(row, k, n)
    ensures Filled(row[Index(n) := Bytes(n, k + 1)], k, n + 1)
  {
    hide Bytes, Index;
    var more := row[Index(n) := Bytes(n, k + 1)];
    forall x: Byte {:trigger Entry(more, k, x)} | x < n + 1
      ensures Entry(more, k, x)
    {
      NotBelow(x, n);
      if x != n {
        IndexDistinct(x, n);
        assert Entry(row, k, x);
      }
    }
  }

  lemma NotBelow(x: bv32, n: bv32)
    requires n < 256 && x < n + 1
    ensures x < n || x == n
  {
  }

  lemma OneByte(x: bv32)
    ensures Bytes(x, 1) == Bits(x, 8)
  {
    hide Bits;
    assert Bytes(x, 0) == x;
  }

  method FirstRow() returns (row: Row)
    ensures Filled(row, 0, 256)
  {
    hide Bits, Bytes, Filled, Index;
    row := ZEROS;
    NothingFilled(row, 0);
    var i: bv32 := 0;
    while i < 256
      invariant i <= 256 && Filled(row, 0, i)
      decreases 256 - i
    {
      var crc := BitLoop(i);
      OneByte(i);
      FilledMore(row, 0, i);
      row := row[Index(i) := crc];
      i := i + 1;
    }
  }

  lemma NothingFilled(row: Row, k: nat)
    ensures Filled(row, k, 0)
  {
  }

  lemma AllFilled(row: Row, k: nat, x: Byte)
    requires Filled(row, k, 256)
    ensures row[Index(x)] == Bytes(x, k + 1)
  {
    assert Entry(row, k, x);
  }

  /** Row `k` from the first row and the one before. */
  method NextRow(first: Row, before: Row, k: nat) returns (row: Row)
    requires k >= 1 && Filled(first, 0, 256) && Filled(before, k - 1, 256)
    ensures Filled(row, k, 256)
  {
    hide Bits, Bytes, Filled, High, Index, Low, Xor;
    row := ZEROS;
    NothingFilled(row, k);
    var i: bv32 := 0;
    while i < 256
      invariant i <= 256 && Filled(row, k, i)
      decreases 256 - i
    {
      var v := before[Index(i)];
      AllFilled(before, k - 1, i);
      AllFilled(first, 0, Low(v));
      NextEntry(i, k);
      FilledMore(row, k, i);
      row := row[Index(i) := Xor(High(v), first[Index(Low(v))])];
      i := i + 1;
    }
  }

  method MakeTable() returns (t: Table)
    ensures TableOk(t)
  {
    hide Filled;
    var first := FirstRow();
    var rows := [first];
    for k := 1 to 16
      invariant |rows| == k && forall j: nat :: j < k ==> Filled(rows[j], j, 256)
    {
      var row := NextRow(first, rows[k - 1], k);
      rows := rows + [row];
    }
    t := rows;
  }

  /* ---- the checksum of a buffer ---- */

  /** One bit per round: the compact form. */
  method Crc32Bitwise(acc: bv32, p: array<Byte>) returns (crc: bv32)
    ensures crc == Crc(acc, p[..])
  {
    hide Bits, Feed, Not, Xor;
    crc := Not(acc);
    NoBytes(Not(acc), p[..]);
    for i := 0 to p.Length
      invariant crc == Feed(Not(acc), p[..][..i])
    {
      FeedOne(Not(acc), p[..], i);
      crc := BitLoop(Xor(crc, p[i]));
    }
    assert p[..][..p.Length] == p[..];
    crc := Not(crc);
  }

  lemma NoBytes(c: bv32, s: seq<Byte>)
    ensures Feed(c, s[..0]) == c
  {
  }

  /** Four table look-ups for one word, in rows `k` to `k + 3`. */
  function LookUp(t: Table, k: nat, w: bv32): bv32
    requires k + 4 <= |t|
  {
    Sum4(t[k][Index(ByteOf(w, 3))], t[k + 1][Index(ByteOf(w, 2))], t[k + 2][Index(ByteOf(w, 1))],
         t[k + 3][Index(ByteOf(w, 0))])
  }

  lemma TableAt(t: Table, k: nat, x: Byte)
    requires TableOk(t) && k < 16
    ensures t[k][Index(x)] == Bytes(x, k + 1)
  {
    AllFilled(t[k], k, x);
  }

  lemma LookUpWord(t: Table, k: nat, w: bv32)
    requires TableOk(t) && k + 4 <= 16
    ensures LookUp(t, k, w) == Bytes(w, 4 + k)
  {
    var b0, b1, b2, b3 := ByteOf(w, 0), ByteOf(w, 1), ByteOf(w, 2), ByteOf(w, 3);
    hide Bytes, ByteOf, Filled, Index, Sum4, TableOk;
    TableAt(t, k, b3);
    TableAt(t, k + 1, b2);
    TableAt(t, k + 2, b1);
    TableAt(t, k + 3, b0);
    WordByTable(w);
    BytesAdd(w, 4, k);
    BytesSum4(Bytes(b3, 1), Bytes(b2, 2), Bytes(b1, 3), Bytes(b0, 4), k);
    BytesAdd(b3, 1, k);
    BytesAdd(b2, 2, k);
    BytesAdd(b1, 3, k);
    BytesAdd(b0, 4, k);
  }

  /** Adding word `j` of `m` to what the earlier words left. */
  lemma NextWord(c: bv32, s: seq<Byte>, i: nat, j: nat, m: nat)
    requires j < m && i + 4 * m <= |s|
    ensures var p := i + 4 * j;
            Xor(Bytes(Feed(c, s[..p]), 4 * (m - j)), Bytes(Word(s, p), 4 * (m - j)))
            == Bytes(Feed(c, s[..p + 4]), 4 * (m - j - 1))
  {
    hide Bytes, Feed, Word, Xor;
    var p := i + 4 * j;
    BytesXor(Feed(c, s[..p]), Word(s, p), 4 * (m - j));
    BytesAdd(Xor(Feed(c, s[..p]), Word(s, p)), 4, 4 * (m - j - 1));
    FeedWord(c, s, p);
  }

  /** One step over `m` words; the register is added to the first. */
  method SliceStep(t: Table, crc: bv32, p: array<Byte>, i: nat, m: nat, ghost c: bv32) returns (r: bv32)
    requires TableOk(t) && 1 <= m <= 4 && i + 4 * m <= p.Length && crc == Feed(c, p[..][..i])
    ensures r == Feed(c, p[..][..i + 4 * m])
  {
    hide Bytes, Feed, LookUp, TableOk, Word, Xor;
    ghost var s := p[..];
    var w := Xor(Word(p[..], i), crc);
    LookUpWord(t, 4 * (m - 1), w);
    FirstWord(c, s, i, m);
    r := LookUp(t, 4 * (m - 1), w);
    var j := 1;
    while j < m
      invariant 1 <= j <= m && r == Bytes(Feed(c, s[..i + 4 * j]), 4 * (m - j))
    {
      w := Word(p[..], i + 4 * j);
      LookUpWord(t, 4 * (m - 1 - j), w);
      NextWord(c, s, i, j, m);
      r := Xor(r, LookUp(t, 4 * (m - 1 - j), w));
      j := j + 1;
    }
    NoBits(Feed(c, s[..i + 4 * m]));
  }

  lemma NoBits(c: bv32)
    ensures Bytes(c, 0) == c
  {
  }

  lemma FirstWord(c: bv32, s: seq<Byte>, i: nat, m: nat)
    requires m >= 1 && i + 4 * m <= |s|
    ensures Bytes(Xor(Word(s, i), Feed(c, s[..i])), 4 * m) == Bytes(Feed(c, s[..i + 4]), 4 * (m - 1))
  {
    hide Bytes, Feed, Word, Xor;
    XorSwap(Word(s, i), Feed(c, s[..i]), 0);
    BytesAdd(Xor(Feed(c, s[..i]), Word(s, i)), 4, 4 * (m - 1));
    FeedWord(c, s, i);
  }

  lemma TableByte(t: Table, c: bv32, x: Byte)
    requires TableOk(t)
    ensures Xor(t[0][Index(Low(Xor(c, x)))], High(c)) == Bits(Xor(c, x), 8)
  {
    HighOfXor(c, x);
    hide Bits, Bytes, High, Index, Low, TableOk, Xor;
    var y := Xor(c, x);
    TableAt(t, 0, Low(y));
    OneByte(Low(y));
    ByteStep(y);
    XorSwap(High(y), Bits(Low(y), 8), 0);
  }

  lemma HighOfXor(c: bv32, x: Byte)
    ensures High(Xor(c, x)) == High(c)
  {
  }

  /** `slc` bytes per step: 1, 4, 8, 12 or 16. */
  method Crc32Sliced(t: Table, slc: nat, acc: bv32, p: array<Byte>) returns (crc: bv32)
    requires TableOk(t) && slc in {1, 4, 8, 12, 16}
    ensures crc == Crc(acc, p[..])
  {
    hide Bits, Feed, High, Index, Low, Not, TableOk, Xor;
    ghost var s, c := p[..], Not(acc);
    crc := Not(acc);
    NoBytes(c, s);
    var i := 0;
    if slc >= 4 {
      var m := slc / 4;
      while i + slc <= p.Length
        invariant i <= p.Length && crc == Feed(c, s[..i])
      {
        crc := SliceStep(t, crc, p, i, m, c);
        i := i + slc;
      }
    }
    while i < p.Length
      invariant i <= p.Length && crc == Feed(c, s[..i])
    {
      FeedOne(c, s, i);
      TableByte(t, crc, p[i]);
      crc := Xor(t[0][Index(Low(Xor(crc, p[i])))], High(crc));
      i := i + 1;
    }
    assert s[..p.Length] == s;
    crc := Not(crc);
  }
}
