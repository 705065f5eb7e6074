/** The variable-length integer format of scommon.c: the lowest set bit of the first byte tells the container size. */
module Varint {
  import opened Bits

  type byte = x: nat | x < 0x100

  const TWO32: nat := 0x1_0000_0000
  const TWO64: nat := 0x1_0000_0000_0000_0000

  /* ---- little-endian words ---- */

  function ToLe(v: nat, n: nat): (s: seq<byte>)
    ensures |s| == n
  {
    if n == 0 then [] else [v % 0x100] + ToLe(v / 0x100, n - 1)
  }

  function Le(s: seq<byte>): nat {
    if s == [] then 0 else s[0] + 0x100 * Le(s[1..])
  }

  /** 256^n */
  function Pow256(n: nat): (r: nat)
    ensures r > 0
  {
    if n == 0 then 1 else 0x100 * Pow256(n - 1)
  }

  lemma {:induction false} LeToLe(v: nat, n: nat)
    requires v < Pow256(n)
    ensures Le(ToLe(v, n)) == v
  {
    if n > 0 {
      LeToLe(v / 0x100, n - 1);
      assert ToLe(v, n)[1..] == ToLe(v / 0x100, n - 1);
    }
  }

  lemma {:induction false} LeBound(s: seq<byte>)
    ensures Le(s) < Pow256(|s|)
  {
    if s != [] {
      LeBound(s[1..]);
    }
  }

  lemma {:induction false} LeConcat(a: seq<byte>, b: seq<byte>)
    ensures Le(a + b) == Le(a) + Pow256(|a|) * Le(b)
  {
    if a == [] {
      assert a + b == b;
    } else {
      assert (a + b)[1..] == a[1..] + b;
      LeConcat(a[1..], b);
      Regroup(a[0], Le(a[1..]), Pow256(|a| - 1), Le(b));
      assert Pow256(|a|) == 0x100 * Pow256(|a| - 1);
    }
  }

  lemma Regroup(h: nat, la: nat, p: nat, lb: nat)
    ensures h + 0x100 * (la + p * lb) == (h + 0x100 * la) + (0x100 * p) * lb
  {
  }

  lemma Powers256()
    ensures Pow256(1) == 0x100 && Pow256(2) == 0x1_0000 && Pow256(3) == 0x100_0000 && Pow256(4) == 0x1_0000_0000
    ensures Pow256(5) == 0x100_0000_0000 && Pow256(6) == 0x1_0000_0000_0000 && Pow256(7) == 0x100_0000_0000_0000
    ensures Pow256(8) == TWO64
  {
    assert Pow256(2) == 0x100 * Pow256(1);
    assert Pow256(4) == 0x100 * Pow256(3);
    assert Pow256(6) == 0x100 * Pow256(5);
  }

  /* ---- the format ---- */

  /** Bytes of the container for `v`: 7 bits of payload per byte, or 9 bytes for anything longer than 49 bits. */
  function PkSize(v: nat): nat {
    if v < 0x80 then 1
    else if v < 0x4000 then 2
    else if v < 0x20_0000 then 3
    else if v < 0x1000_0000 then 4
    else if v < 0x8_0000_0000 then 5
    else if v < 0x400_0000_0000 then 6
    else if v < 0x2_0000_0000_0000 then 7
    else 9
  }

  /** Shift and identification bit of a container of `m` bytes: 2^m and 2^(m - 1). */
  function Shift(m: nat): nat {
    match m
    case 1 => 2
    case 2 => 4
    case 3 => 8
    case 4 => 16
    case 5 => 32
    case 6 => 64
    case _ => 128
  }

  function Container(v: nat, m: nat): nat {
    v * Shift(m) + Shift(m) / 2
  }

  function Pk(v: nat): (s: seq<byte>)
    ensures |s| == PkSize(v)
  {
    var m := PkSize(v);
    if m < 9 then ToLe(Container(v, m), m) else [128] + ToLe(v, 8)
  }

  lemma Sevens()
    ensures Pow2(7) == 0x80 && Pow2(14) == 0x4000 && Pow2(21) == 0x20_0000 && Pow2(28) == 0x1000_0000
    ensures Pow2(35) == 0x8_0000_0000 && Pow2(42) == 0x400_0000_0000 && Pow2(49) == 0x2_0000_0000_0000
  {
    assert Pow2(7) == 0x80;
    Pow2Add(7, 7);
    Pow2Add(14, 7);
    Pow2Add(21, 7);
    Pow2Add(28, 7);
    Pow2Add(35, 7);
    Pow2Add(42, 7);
  }

  /** The least number of bytes with seven bits of payload each that holds `v`, or nine when seven are not enough. */
  lemma SizeLeast(v: nat)
    ensures var m := PkSize(v);
            if v < Pow2(49) then 1 <= m <= 7 && v < Pow2(7 * m) && (m > 1 ==> v >= Pow2(7 * (m - 1))) else m == 9
  {
    hide Pow2;
    Sevens();
  }

  /** The bytes as a little-endian number: the payload above a lowest set bit at m - 1, or, for nine bytes, behind a
      first byte of 128. */
  lemma PkIs(v: nat)
    requires v < TWO64
    ensures var m := PkSize(v);
            if m == 9 then Pk(v)[0] == 0x80 && Le(Pk(v)[1..]) == v else Le(Pk(v)) == v * Pow2(m) + Pow2(m - 1)
  {
    var m := PkSize(v);
    Powers256();
    if m == 9 {
      LeToLe(v, 8);
      assert Pk(v)[1..] == ToLe(v, 8);
    } else {
      ShiftIs(m);
      SmallContainer(v);
      hide Pow256, ToLe, Le, Pow2;
      LeToLe(Container(v, m), m);
    }
  }

  lemma ShiftIs(m: nat)
    requires 1 <= m <= 7
    ensures Shift(m) == Pow2(m) && Shift(m) / 2 == Pow2(m - 1)
  {
    assert Pow2(6) == 64;
  }

  lemma SmallContainer(v: nat)
    ensures var m := PkSize(v); m <= 7 ==> Container(v, m) < Pow256(m)
  {
    hide Pow256;
    Powers256();
  }

  /** Size told by the first byte; 0 when no bit is set. */
  function PkLen(h: byte): nat {
    if h % 2 != 0 then 1
    else if h / 2 % 2 != 0 then 2
    else if h / 4 % 2 != 0 then 3
    else if h / 8 % 2 != 0 then 4
    else if h / 16 % 2 != 0 then 5
    else if h / 32 % 2 != 0 then 6
    else if h / 64 % 2 != 0 then 7
    else if h / 128 % 2 != 0 then 9
    else 0
  }

  /** The loaded value: whole words are read, so `w` may be longer than the packed number. */
  function UnPk(w: seq<byte>): nat
    requires |w| >= 9
  {
    match PkLen(w[0])
    case 1 => w[0] / 2
    case 2 => Le(w[..2]) / 4
    case 3 => Le(w[..4]) / 8 % 0x20_0000
    case 4 => Le(w[..4]) / 16
    case 5 => Le(w[..8]) / 32 % 0x8_0000_0000
    case 6 => Le(w[..8]) / 64 % 0x400_0000_0000
    case 7 => Le(w[..8]) / 128 % 0x2_0000_0000_0000
    case 9 => Le(w[1..9])
    case _ => 0
  }

  /* ---- the container of each size: what its first byte says, and what a word holds that starts with it ---- */

  lemma First1(v: nat)
    ensures PkLen((v * 2 + 1) % 0x100) == 1
  {
    var k := v % 128;
    assert (v * 2 + 1) % 0x100 == 2 * k + 1;
  }

  lemma First2(v: nat)
    ensures PkLen((v * 4 + 2) % 0x100) == 2
  {
    var k := v % 64;
    assert (v * 4 + 2) % 0x100 == 4 * k + 2;
  }

  lemma First3(v: nat)
    ensures PkLen((v * 8 + 4) % 0x100) == 3
  {
    var k := v % 32;
    var h := (v * 8 + 4) % 0x100;
    assert h == 8 * k + 4;
    assert h / 2 == 4 * k + 2 && h / 4 == 2 * k + 1;
  }

  lemma First4(v: nat)
    ensures PkLen((v * 16 + 8) % 0x100) == 4
  {
    var k := v % 16;
    var h := (v * 16 + 8) % 0x100;
    assert h == 16 * k + 8;
    assert h / 2 == 8 * k + 4 && h / 4 == 4 * k + 2 && h / 8 == 2 * k + 1;
  }

  lemma First5(v: nat)
    ensures PkLen((v * 32 + 16) % 0x100) == 5
  {
    var k := v % 8;
    var h := (v * 32 + 16) % 0x100;
    assert h == 32 * k + 16;
    assert h / 2 == 16 * k + 8 && h / 4 == 8 * k + 4 && h / 8 == 4 * k + 2 && h / 16 == 2 * k + 1;
  }

  lemma First6(v: nat)
    ensures PkLen((v * 64 + 32) % 0x100) == 6
  {
    var k := v % 4;
    var h := (v * 64 + 32) % 0x100;
    assert h == 64 * k + 32;
    assert h / 2 == 32 * k + 16 && h / 4 == 16 * k + 8 && h / 8 == 8 * k + 4 && h / 16 == 4 * k + 2
           && h / 32 == 2 * k + 1;
  }

  lemma First7(v: nat)
    ensures PkLen((v * 128 + 64) % 0x100) == 7
  {
    var k := v % 2;
    var h := (v * 128 + 64) % 0x100;
    assert h == 128 * k + 64;
    assert h / 2 == 64 * k + 32 && h / 4 == 32 * k + 16 && h / 8 == 16 * k + 8 && h / 16 == 8 * k + 4
           && h / 32 == 4 * k + 2 && h / 64 == 2 * k + 1;
  }

  lemma Word3(v: nat, y: nat)
    requires v < 0x20_0000
    ensures (v * 8 + 4 + 0x100_0000 * y) / 8 % 0x20_0000 == v
  {
    assert (v * 8 + 4 + 0x100_0000 * y) / 8 == v + 0x20_0000 * y;
  }

  lemma Word5(v: nat, y: nat)
    requires v < 0x8_0000_0000
    ensures (v * 32 + 16 + 0x100_0000_0000 * y) / 32 % 0x8_0000_0000 == v
  {
    assert (v * 32 + 16 + 0x100_0000_0000 * y) / 32 == v + 0x8_0000_0000 * y;
  }

  lemma Word6(v: nat, y: nat)
    requires v < 0x400_0000_0000
    ensures (v * 64 + 32 + 0x1_0000_0000_0000 * y) / 64 % 0x400_0000_0000 == v
  {
    assert (v * 64 + 32 + 0x1_0000_0000_0000 * y) / 64 == v + 0x400_0000_0000 * y;
  }

  lemma Word7(v: nat, y: nat)
    requires v < 0x2_0000_0000_0000
    ensures (v * 128 + 64 + 0x100_0000_0000_0000 * y) / 128 % 0x2_0000_0000_0000 == v
  {
    assert (v * 128 + 64 + 0x100_0000_0000_0000 * y) / 128 == v + 0x2_0000_0000_0000 * y;
  }

  lemma FirstByte(v: nat)
    ensures PkLen(Pk(v)[0]) == PkSize(v)
  {
    PkHead(v);
    Containers(v);
    hide PkLen, PkSize, Pk, Container;
    match PkSize(v)
    case 1 => First1(v);
    case 2 => First2(v);
    case 3 => First3(v);
    case 4 => First4(v);
    case 5 => First5(v);
    case 6 => First6(v);
    case 7 => First7(v);
    case _ => LastSize();
  }

  lemma Containers(v: nat)
    ensures Container(v, 1) == v * 2 + 1 && Container(v, 2) == v * 4 + 2 && Container(v, 3) == v * 8 + 4
    ensures Container(v, 4) == v * 16 + 8 && Container(v, 5) == v * 32 + 16 && Container(v, 6) == v * 64 + 32
    ensures Container(v, 7) == v * 128 + 64
  {
  }

  lemma PkHead(v: nat)
    ensures PkSize(v) in {1, 2, 3, 4, 5, 6, 7, 9}
    ensures Pk(v)[0] == if PkSize(v) < 9 then Container(v, PkSize(v)) % 0x100 else 128
  {
  }

  lemma LastSize()
    ensures PkLen(128) == 9
  {
  }

  /** The word loaded for a container of 1 to 7 bytes followed by bytes of value `x`. */
  lemma WordValue(v: nat, m: nat, x: nat)
    requires PkSize(v) == m <= 7
    ensures m == 1 ==> Container(v, 1) % 0x100 / 2 == v
    ensures m == 2 ==> Container(v, 2) / 4 == v
    ensures m == 3 ==> (Container(v, 3) + Pow256(3) * x) / 8 % 0x20_0000 == v
    ensures m == 4 ==> Container(v, 4) / 16 == v
    ensures m == 5 ==> (Container(v, 5) + Pow256(5) * x) / 32 % 0x8_0000_0000 == v
    ensures m == 6 ==> (Container(v, 6) + Pow256(6) * x) / 64 % 0x400_0000_0000 == v
    ensures m == 7 ==> (Container(v, 7) + Pow256(7) * x) / 128 % 0x2_0000_0000_0000 == v
  {
    Powers256();
    hide Pow256;
    match m
    case 1 => assert Container(v, 1) % 0x100 == Container(v, 1);
    case 3 => Word3(v, x);
    case 5 => Word5(v, x);
    case 6 => Word6(v, x);
    case 7 => Word7(v, x);
    case _ =>
  }

  lemma ContainerFits(v: nat, m: nat)
    requires PkSize(v) == m <= 7
    ensures Container(v, m) < Pow256(m)
  {
    Powers256();
  }

  /** Loading undoes storing, whatever bytes follow. */
  lemma UnPkPk(v: nat, tail: seq<byte>)
    requires v < TWO64 && |Pk(v) + tail| >= 9
    ensures PkLen((Pk(v) + tail)[0]) == |Pk(v)|
    ensures UnPk(Pk(v) + tail) == v
  {
    var m, w := PkSize(v), Pk(v) + tail;
    Powers256();
    FirstByte(v);
    if m == 9 {
      assert w[1..9] == ToLe(v, 8);
      LeToLe(v, 8);
    } else {
      ContainerFits(v, m);
      LeToLe(Container(v, m), m);
      var n := if m <= 2 then m else if m <= 4 then 4 else 8;
      var x := w[m..n];
      assert w[..n] == Pk(v) + x;
      LeConcat(Pk(v), x);
      assert m == n ==> x == [];
      assert m == n ==> Le(x) == 0;
      WordValue(v, m, Le(x));
      assert m == 1 ==> Pk(v)[0] == Container(v, 1) % 0x100;
    }
  }

  /* ---- storing and loading ---- */

  /** Cells from `lo` on, `n` of them, hold `w`; all others are as before. */
  twostate predicate Stored(o: array<byte>, lo: nat, w: seq<byte>)
    reads o
  {
    lo + |w| <= o.Length && o[lo..lo + |w|] == w
    && forall i :: 0 <= i < o.Length && !(lo <= i < lo + |w|) ==> o[i] == old(o[i])
  }

  /** Stores a little-endian word of `n` bytes. */
  method StLe(o: array<byte>, off: nat, v: nat, n: nat)
    requires off + n <= o.Length
    modifies o
    ensures Stored(o, off, ToLe(v, n))
  {
    var x, i := v, 0;
    while i < n
      invariant i <= n
      invariant o[off..off + i] + ToLe(x, n - i) == ToLe(v, n)
      invariant forall j :: 0 <= j < o.Length && !(off <= j < off + i) ==> o[j] == old(o[j])
    {
      ghost var before := o[off..off + i];
      o[off + i] := x % 0x100;
      assert o[off..off + i + 1] == before + [x % 0x100];
      x, i := x / 0x100, i + 1;
    }
  }

  /** Bytes written for `v`: whole words, so up to three beyond the container. */
  function StSize(v: nat): nat {
    var m := PkSize(v);
    if m == 3 then 4 else if 5 <= m <= 7 then 8 else m
  }

  lemma {:induction false} ToLePrefix(v: nat, n: nat, k: nat)
    requires k <= n
    ensures ToLe(v, n)[..k] == ToLe(v, k)
  {
    if k > 0 {
      ToLePrefix(v / 0x100, n - 1, k - 1);
      assert ToLe(v, n)[..k] == [v % 0x100] + ToLe(v / 0x100, n - 1)[..k - 1];
    }
  }

  /** The container as the front of the word that is stored for it. */
  lemma StoredWord(v: nat)
    ensures var m := PkSize(v);
            m <= 7 ==> StSize(v) >= m && ToLe(Container(v, m), StSize(v))[..m] == Pk(v)
  {
    var m := PkSize(v);
    if m <= 7 {
      ToLePrefix(Container(v, m), StSize(v), m);
    }
  }

  /** Appends `v` at `off`. */
  method StPk(o: array<byte>, off: nat, v: nat) returns (end: nat)
    requires v < TWO64 && off + StSize(v) <= o.Length
    modifies o
    ensures end == off + PkSize(v) && o[off..end] == Pk(v)
    ensures forall i :: 0 <= i < o.Length && !(off <= i < off + StSize(v)) ==> o[i] == old(o[i])
  {
    StoredWord(v);
    Sizes(v);
    hide Container, Pk, PkSize, StSize, ToLe;
    ghost var word := [];
    if v < 0x80 {
      StLe(o, off, Container(v, 1), 1);
      word := ToLe(Container(v, 1), 1);
      end := off + 1;
    } else if v < 0x4000 {
      StLe(o, off, Container(v, 2), 2);
      word := ToLe(Container(v, 2), 2);
      end := off + 2;
    } else if v < 0x20_0000 {
      StLe(o, off, Container(v, 3), 4);
      word := ToLe(Container(v, 3), 4);
      end := off + 3;
    } else if v < 0x1000_0000 {
      StLe(o, off, Container(v, 4), 4);
      word := ToLe(Container(v, 4), 4);
      end := off + 4;
    } else if v < 0x8_0000_0000 {
      StLe(o, off, Container(v, 5), 8);
      word := ToLe(Container(v, 5), 8);
      end := off + 5;
    } else if v < 0x400_0000_0000 {
      StLe(o, off, Container(v, 6), 8);
      word := ToLe(Container(v, 6), 8);
      end := off + 6;
    } else if v < 0x2_0000_0000_0000 {
      StLe(o, off, Container(v, 7), 8);
      word := ToLe(Container(v, 7), 8);
      end := off + 7;
    } else {
      o[off] := 128;
      StLe(o, off + 1, v, 8);
      end := off + 9;
      LongPk(v);
      assert o[off..end] == [128] + o[off + 1..end];
    }
    if end < off + 9 {
      assert word == ToLe(Container(v, PkSize(v)), StSize(v));
      assert o[off..off + |word|] == word;
      assert o[off..end] == o[off..off + StSize(v)][..end - off];
    }
  }

  lemma Sizes(v: nat)
    ensures PkSize(v) == if v < 0x80 then 1 else if v < 0x4000 then 2 else if v < 0x20_0000 then 3
                         else if v < 0x1000_0000 then 4 else if v < 0x8_0000_0000 then 5
                         else if v < 0x400_0000_0000 then 6 else if v < 0x2_0000_0000_0000 then 7 else 9
    ensures StSize(v) == if v < 0x80 then 1 else if v < 0x4000 then 2 else if v < 0x1000_0000 then 4
                         else if v < 0x2_0000_0000_0000 then 8 else 9
  {
  }

  lemma LongPk(v: nat)
    requires PkSize(v) == 9
    ensures Pk(v) == [128] + ToLe(v, 8)
  {
  }

  lemma {:induction false} LeSnoc(s: seq<byte>, x: byte)
    ensures Le(s + [x]) == Le(s) + Pow256(|s|) * x
  {
    LeConcat(s, [x]);
    assert Le([x]) == x;
  }

  /** Loads a little-endian word of `n` bytes. */
  method LdLe(s: array<byte>, off: nat, n: nat) returns (v: nat)
    requires off + n <= s.Length
    ensures v == Le(s[off..off + n])
  {
    v := 0;
    var i: nat, p: nat := 0, 1;
    while i < n
      invariant i <= n && p == Pow256(i) && v == Le(s[off..off + i])
    {
      assert s[off..off + i + 1] == s[off..off + i] + [s[off + i]];
      LeSnoc(s[off..off + i], s[off + i]);
      v, p, i := v + p * s[off + i], 0x100 * p, i + 1;
    }
  }

  /** A number packed at `off`, all of whose bytes are among the next `bs`. */
  predicate PackedAt(s: seq<byte>, off: nat, bs: nat, v: nat) {
    v < TWO64 && PkSize(v) <= bs && off + PkSize(v) <= |s| && s[off..off + PkSize(v)] == Pk(v)
  }

  lemma PackedLoad(s: seq<byte>, off: nat, bs: nat, v: nat)
    requires off + 9 <= |s| && PackedAt(s, off, bs, v)
    ensures PkLen(s[off]) == PkSize(v) <= bs && UnPk(s[off..off + 9]) == v
  {
    var w := s[off..off + 9];
    var tail := w[PkSize(v)..];
    assert w == Pk(v) + tail;
    UnPkPk(v, tail);
  }

  lemma Slices(s: seq<byte>, off: nat)
    requires off + 9 <= |s|
    ensures var w := s[off..off + 9];
            w[0] == s[off] && w[..2] == s[off..off + 2] && w[..4] == s[off..off + 4] && w[..8] == s[off..off + 8]
            && w[1..9] == s[off + 1..off + 9]
  {
  }

  /** Loads the number at `off` of which `bs` bytes are there, and moves on. Words are read whole: the buffer extends at
      least 9 bytes from `off`. */
  method LdPk(s: array<byte>, off: nat, bs: nat) returns (v: nat, end: nat)
    requires off + 9 <= s.Length
    ensures bs == 0 ==> v == 0 && end == off
    ensures bs > 0 ==> end == off + PkLen(s[off]) && (PkLen(s[off]) > bs ==> v == 0)
    ensures forall x :: PackedAt(s[..], off, bs, x) ==> v == x && end == off + PkSize(x)
  {
    if bs == 0 {
      return 0, off;
    }
    forall x | PackedAt(s[..], off, bs, x)
      ensures PkLen(s[off]) == PkSize(x) <= bs && UnPk(s[..][off..off + 9]) == x
    {
      PackedLoad(s[..], off, bs, x);
    }
    Slices(s[..], off);
    hide Le, PackedAt, Pk, PkSize;
    var hdrBytes := PkLen(s[off]);
    end := off + hdrBytes;
    if hdrBytes > bs {
      return 0, end;
    }
    var w: nat;
    match hdrBytes {
      case 1 => v := s[off] / 2;
      case 2 => w := LdLe(s, off, 2); v := w / 4;
      case 3 => w := LdLe(s, off, 4); v := w / 8 % 0x20_0000;
      case 4 => w := LdLe(s, off, 4); v := w / 16;
      case 5 => w := LdLe(s, off, 8); v := w / 32 % 0x8_0000_0000;
      case 6 => w := LdLe(s, off, 8); v := w / 64 % 0x400_0000_0000;
      case 7 => w := LdLe(s, off, 8); v := w / 128 % 0x2_0000_0000_0000;
      case 9 => v := LdLe(s, off + 1, 8);
      case _ => v := 0;
    }
  }
}
