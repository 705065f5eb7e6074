/** Adler-32 with the reduction put off for up to 5552 bytes (shash.c). Section 8.2 of RFC 1950. */
module Adler32 {
  import opened Varint

  const BASE: nat := 65521
  const NMAX: nat := 5552

  /** The definition: both sums are reduced after every byte. */
  function Sums(a: nat, b: nat, s: seq<byte>): (nat, nat) {
    if s == [] then
      (a, b)
    else
      var (x, y) := Sums(a, b, s[..|s| - 1]);
      var x' := (x + s[|s| - 1]) % BASE;
      (x', (y + x') % BASE)
  }

  /** The checksum: second sum in the high half, first sum in the low half. */
  function Adler(acc: nat, s: seq<byte>): nat {
    var (x, y) := Sums(acc % 0x1_0000, acc / 0x1_0000 % 0x1_0000, s);
    y * 0x1_0000 + x
  }

  lemma {:induction false} SumsConcat(a: nat, b: nat, s: seq<byte>, t: seq<byte>)
    ensures Sums(a, b, s + t) == var (x, y) := Sums(a, b, s); Sums(x, y, t)
  {
    if t == [] {
      assert s + t == s;
    } else {
      assert (s + t)[..|s + t| - 1] == s + t[..|t| - 1];
      SumsConcat(a, b, s, t[..|t| - 1]);
    }
  }

  lemma {:induction false} SumsReduced(a: nat, b: nat, s: seq<byte>)
    requires a < 0x1_0000 && b < 0x1_0000
    ensures var (x, y) := Sums(a, b, s); x < 0x1_0000 && y < 0x1_0000 && (s != [] ==> x < BASE && y < BASE)
  {
  }

  /** The checksum of the first part is the accumulator for the second. */
  lemma AdlerConcat(acc: nat, s: seq<byte>, t: seq<byte>)
    requires acc < TWO32
    ensures Adler(Adler(acc, s), t) == Adler(acc, s + t)
  {
    var a, b := acc % 0x1_0000, acc / 0x1_0000 % 0x1_0000;
    var (x, y) := Sums(a, b, s);
    SumsReduced(a, b, s);
    Halves(x, y);
    SumsConcat(a, b, s, t);
  }

  lemma Halves(x: nat, y: nat)
    requires x < 0x1_0000 && y < 0x1_0000
    ensures (y * 0x1_0000 + x) % 0x1_0000 == x && (y * 0x1_0000 + x) / 0x1_0000 % 0x1_0000 == y
  {
    assert (y * 0x1_0000 + x) / 0x1_0000 == y;
  }

  /* ---- sums without reduction ---- */

  function Raw1(a: nat, s: seq<byte>): nat {
    if s == [] then a else Raw1(a, s[..|s| - 1]) + s[|s| - 1]
  }

  function Raw2(a: nat, b: nat, s: seq<byte>): nat {
    if s == [] then b else Raw2(a, b, s[..|s| - 1]) + Raw1(a, s)
  }

  /** n (n + 1) / 2 */
  function Triangle(n: nat): nat {
    if n == 0 then 0 else Triangle(n - 1) + n
  }

  lemma {:induction false} TriangleIs(n: nat)
    ensures 2 * Triangle(n) == n * (n + 1)
  {
    if n > 0 {
      TriangleIs(n - 1);
      assert n * (n + 1) == (n - 1) * n + 2 * n;
    }
  }

  lemma {:induction false} RawBounds(a: nat, b: nat, s: seq<byte>)
    requires a <= 65535 && b <= 65535
    ensures Raw1(a, s) <= 65535 + 255 * |s| && Raw2(a, b, s) <= 65535 + 65535 * |s| + 255 * Triangle(|s|)
  {
    if s != [] {
      RawBounds(a, b, s[..|s| - 1]);
    }
  }

  lemma {:induction false} TriangleMonotone(m: nat, n: nat)
    requires m <= n
    ensures Triangle(m) <= Triangle(n)
  {
    if m < n {
      TriangleMonotone(m, n - 1);
    }
  }

  /** No 32-bit overflow inside a block, even from unreduced halves. */
  lemma NoOverflow(a: nat, b: nat, s: seq<byte>)
    requires a <= 65535 && b <= 65535 && |s| <= NMAX
    ensures Raw1(a, s) < TWO32 && Raw2(a, b, s) < TWO32
  {
    RawBounds(a, b, s);
    TriangleMonotone(|s|, NMAX);
    TriangleIs(NMAX);
  }

  lemma ModPlus(p: nat, x: nat)
    ensures (p % BASE + x) % BASE == (p + x) % BASE
  {
    var q, r := p / BASE, p % BASE;
    assert p + x == BASE * q + (r + x);
    ModCongruent(r + x, q);
  }

  lemma ModCongruent(x: nat, q: nat)
    ensures (BASE * q + x) % BASE == x % BASE
  {
  }

  /** Reducing once at the end is the same. */
  lemma {:induction false} RawIsSums(a: nat, b: nat, s: seq<byte>)
    requires s != []
    ensures Sums(a, b, s) == (Raw1(a, s) % BASE, Raw2(a, b, s) % BASE)
  {
    var t, x := s[..|s| - 1], s[|s| - 1];
    if t == [] {
      assert Raw1(a, t) == a && Raw2(a, b, t) == b;
    } else {
      RawIsSums(a, b, t);
    }
    assert Raw1(a, s) == Raw1(a, t) + x && Raw2(a, b, s) == Raw2(a, b, t) + Raw1(a, s);
    ModPlus(Raw1(a, t), x);
    ModPlus(Raw1(a, s), b);
    ModPlus(Raw2(a, b, t), Raw1(a, s) % BASE);
    ModPlus(Raw1(a, s), Raw2(a, b, t));
  }

  function Add32(x: nat, y: nat): nat {
    (x + y) % TWO32
  }

  lemma RawOne(a: nat, b: nat, s: seq<byte>, x: byte)
    ensures Raw1(a, s + [x]) == Raw1(a, s) + x && Raw2(a, b, s + [x]) == Raw2(a, b, s) + Raw1(a, s + [x])
  {
    assert (s + [x])[..|s|] == s;
  }

  /** Adds `n` bytes to both sums, without reduction; `from` is where the block of at most NMAX bytes started. */
  method AddBytes(p: array<byte>, i: nat, n: nat, s1: nat, s2: nat, ghost from: nat, ghost a: nat, ghost b: nat)
    returns (r1: nat, r2: nat)
    requires from <= i && i + n <= p.Length && i + n - from <= NMAX && a <= 65535 && b <= 65535
    requires s1 == Raw1(a, p[from..i]) && s2 == Raw2(a, b, p[from..i])
    ensures r1 == Raw1(a, p[from..i + n]) && r2 == Raw2(a, b, p[from..i + n])
  {
    hide Raw1, Raw2;
    r1, r2 := s1, s2;
    for j := 0 to n
      invariant r1 == Raw1(a, p[from..i + j]) && r2 == Raw2(a, b, p[from..i + j])
    {
      ghost var t := p[from..i + j];
      assert p[from..i + j + 1] == t + [p[i + j]];
      RawOne(a, b, t, p[i + j]);
      NoOverflow(a, b, t + [p[i + j]]);
      r1 := Add32(r1, p[i + j]);
      r2 := Add32(r2, r1);
    }
  }

  lemma NextBlock(a: nat, b: nat, s: seq<byte>, i: nat, k: nat, x: nat, y: nat)
    requires 0 < k && i + k <= |s| && (x, y) == Sums(a, b, s[..i])
    ensures Sums(a, b, s[..i + k]) == (Raw1(x, s[i..i + k]) % BASE, Raw2(x, y, s[i..i + k]) % BASE)
  {
    assert s[..i + k] == s[..i] + s[i..i + k];
    SumsConcat(a, b, s[..i], s[i..i + k]);
    RawIsSums(x, y, s[i..i + k]);
  }

  /** One block, sixteen bytes at a time. */
  method AddBlock(p: array<byte>, from: nat, n: nat, a: nat, b: nat) returns (s1: nat, s2: nat)
    requires from + n <= p.Length && n <= NMAX && a <= 65535 && b <= 65535
    ensures s1 == Raw1(a, p[from..from + n]) && s2 == Raw2(a, b, p[from..from + n])
  {
    var i: nat, k: nat := from, n;
    s1, s2 := a, b;
    assert p[from..from] == [];
    while k >= 16
      invariant from <= i && i + k == from + n
      invariant s1 == Raw1(a, p[from..i]) && s2 == Raw2(a, b, p[from..i])
    {
      s1, s2 := AddBytes(p, i, 16, s1, s2, from, a, b);
      i, k := i + 16, k - 16;
    }
    s1, s2 := AddBytes(p, i, k, s1, s2, from, a, b);
  }

  /** Blocks of at most 5552 bytes; reduction after each block. */
  method ShAdler32(adler: nat, p: array<byte>) returns (r: nat)
    requires adler < TWO32
    ensures r == Adler(adler, p[..])
  {
    var s1, s2 := adler % 0x1_0000, adler / 0x1_0000 % 0x1_0000;
    ghost var a, b, s := s1, s2, p[..];
    var remaining: nat, i: nat := p.Length, 0;
    assert s[..0] == [];
    while remaining > 0
      invariant i + remaining == p.Length && s1 <= 65535 && s2 <= 65535
      invariant (s1, s2) == Sums(a, b, s[..i])
    {
      var k := if remaining < NMAX then remaining else NMAX;
      remaining := remaining - k;
      NextBlock(a, b, s, i, k, s1, s2);
      s1, s2 := AddBlock(p, i, k, s1, s2);
      assert s[i..i + k] == p[i..i + k];
      i := i + k;
      s1, s2 := s1 % BASE, s2 % BASE;
    }
    assert s[..p.Length] == s;
    r := s2 * 0x1_0000 + s1;
  }

  /* ---- a check value ---- */

  lemma {:induction false} RawOfOnes(n: nat)
    ensures var s := seq(n, _ => 255); Raw1(1, s) == 1 + 255 * n && Raw2(1, 0, s) == n + 255 * Triangle(n)
  {
    if n > 0 {
      var s := seq(n, _ => 255);
      RawOfOnes(n - 1);
      assert s[..n - 1] == seq(n - 1, _ => 255);
    }
  }

  /** Twenty-four bytes of 255 are enough to carry the second sum past the modulus. */
  lemma CheckValue()
    ensures Adler(1, seq(24, _ => 255)) == 0x2afb_17e9
  {
    hide Raw1, Raw2, Sums, Triangle;
    var s := seq(24, _ => 255);
    RawOfOnes(24);
    TriangleIs(24);
    RawIsSums(1, 0, s);
    assert Sums(1, 0, s) == (6121, 11003);
  }

}
