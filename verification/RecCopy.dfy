/** Copying from `dist` bytes back, where source and target may overlap (senc.c). */
module RecCopy {
  import opened Bits
  import opened Varint

  /** Byte by byte, each copied byte can be the source of a later one. */
  function RecCpy(out: seq<byte>, dist: nat, n: nat): (r: seq<byte>)
    requires 1 <= dist <= |out|
    ensures |r| == |out| + n && out <= r
    decreases n
  {
    if n == 0 then out else RecCpy(out + [out[|out| - dist]], dist, n - 1)
  }

  lemma {:induction false} RecCpySnoc(out: seq<byte>, dist: nat, n: nat)
    requires 1 <= dist <= |out|
    ensures RecCpy(out, dist, n + 1) == RecCpy(out, dist, n) + [RecCpy(out, dist, n)[|out| + n - dist]]
    decreases n
  {
    if n > 0 {
      RecCpySnoc(out + [out[|out| - dist]], dist, n - 1);
    }
  }

  lemma ModStep(j: nat, d: nat)
    requires j > 0 && d > 0
    ensures j % d == if (j - 1) % d == d - 1 then 0 else (j - 1) % d + 1
  {
    var q, r := (j - 1) / d, (j - 1) % d;
    if r == d - 1 {
      ModUnique(j, d, q + 1, 0);
    } else {
      ModUnique(j, d, q, r + 1);
    }
  }

  lemma ModUnique(x: nat, d: nat, q: nat, r: nat)
    requires d > 0 && r < d && x == d * q + r
    ensures x % d == r
  {
    var q', r' := x / d, x % d;
    if q' < q {
      MulMonotone(q' + 1, q, d);
    } else if q < q' {
      MulMonotone(q + 1, q', d);
    }
  }

  /** The copy repeats the last `dist` bytes. */
  lemma {:induction false} RecCpyAt(out: seq<byte>, dist: nat, n: nat, j: nat)
    requires 1 <= dist <= |out| && j < n
    ensures RecCpy(out, dist, n)[|out| + j] == out[|out| - dist + j % dist]
    decreases n
  {
    var next := out + [out[|out| - dist]];
    if j == 0 {
      ModUnique(0, dist, 0, 0);
      assert next <= RecCpy(out, dist, n);
      assert next[|out|] == out[|out| - dist];
    } else {
      RecCpyAt(next, dist, n - 1, j - 1);
      ModStep(j, dist);
    }
  }

  /** Cells from `lo` to `hi` may have changed, no others. */
  twostate predicate OnlyIn(o: array<byte>, lo: nat, hi: nat)
    reads o
  {
    forall i :: 0 <= i < o.Length && !(lo <= i < hi) ==> o[i] == old(o[i])
  }

  /** The simple form. */
  method RecCpy1(o: array<byte>, off: nat, dist: nat, n: nat)
    requires 1 <= dist <= off && off + n <= o.Length
    modifies o
    ensures OnlyIn(o, off, off + n) && o[..off + n] == RecCpy(old(o[..off]), dist, n)
  {
    ghost var out := o[..off];
    var j := 0;
    while j < n
      invariant j <= n && OnlyIn(o, off, off + n) && o[..off + j] == RecCpy(out, dist, j)
    {
      RecCpySnoc(out, dist, j);
      assert o[off + j - dist] == o[..off + j][off + j - dist];
      o[off + j] := o[off + j - dist];
      assert o[..off + j + 1] == o[..off + j] + [o[off + j]];
      j := j + 1;
    }
  }

  /** memcpy of regions that do not overlap. */
  method Memcpy(o: array<byte>, dst: nat, src: nat, n: nat)
    requires src + n <= dst && dst + n <= o.Length
    modifies o
    ensures OnlyIn(o, dst, dst + n)
    ensures forall k :: dst <= k < dst + n ==> o[k] == old(o[k - dst + src])
  {
    var i := 0;
    while i < n
      invariant i <= n && OnlyIn(o, dst, dst + i)
      invariant forall k :: dst <= k < dst + i ==> o[k] == old(o[k - dst + src])
    {
      o[dst + i] := o[src + i];
      i := i + 1;
    }
  }

  /** The cells from `off` on repeat `base`. */
  predicate Repeats(s: seq<byte>, off: nat, n: nat, base: seq<byte>)
    requires base != [] && |base| <= off && off + n <= |s|
  {
    forall k :: off - |base| <= k < off + n ==> s[k] == base[(k - (off - |base|)) % |base|]
  }

  lemma RepeatsIsRecCpy(s: seq<byte>, off: nat, n: nat, out: seq<byte>, dist: nat)
    requires 1 <= dist <= off == |out| && off + n <= |s| && s[..off] == out
    requires Repeats(s, off, n, out[off - dist..])
    ensures s[..off + n] == RecCpy(out, dist, n)
  {
    var r := RecCpy(out, dist, n);
    forall k | off <= k < off + n
      ensures s[k] == r[k]
    {
      RepeatsAt(s, off, n, out, dist, k - off);
      RecCpyAt(out, dist, n, k - off);
    }
    assert forall k :: 0 <= k < off ==> s[k] == s[..off][k] == r[k];
    assert s[..off + n] == r;
  }

  lemma RepeatsAt(s: seq<byte>, off: nat, n: nat, out: seq<byte>, dist: nat, j: nat)
    requires 1 <= dist <= off == |out| && off + n <= |s| && j < n && Repeats(s, off, n, out[off - dist..])
    ensures s[off + j] == out[off - dist + j % dist]
  {
    var k := off + j;
    ModShift(j, dist, 1);
    assert s[k] == out[off - dist..][(k - (off - dist)) % dist];
    assert k - (off - dist) == j + dist * 1;
  }

  lemma ModShift(x: nat, d: nat, m: nat)
    requires d > 0
    ensures (x + d * m) % d == x % d
  {
    var q, r := x / d, x % d;
    assert x + d * m == d * (q + m) + r;
    ModUnique(x + d * m, d, q + m, r);
  }

  /** Copying from the start of the pattern to a place a whole number of patterns on. */
  lemma RepeatsMore(s: seq<byte>, t: seq<byte>, off: nat, i: nat, chunk: nat, base: seq<byte>)
    requires base != [] && |base| <= off && off + i + chunk <= |s| == |t|
    requires Repeats(s, off, i, base) && i % |base| == 0 && chunk <= i + |base|
    requires forall k :: 0 <= k < off + i ==> t[k] == s[k]
    requires forall k :: off + i <= k < off + i + chunk ==> t[k] == s[k - (off + i) + (off - |base|)]
    ensures Repeats(t, off, i + chunk, base)
  {
    var d, from := |base|, off - |base|;
    forall k | from <= k < off + i + chunk
      ensures t[k] == base[(k - from) % d]
    {
      if k >= off + i {
        var x := k - (off + i);
        assert s[x + from] == base[(x + from - from) % d];
        var q := i / d;
        assert i == d * q;
        ModShift(x, d, q + 1);
        assert k - from == x + d * (q + 1);
      }
    }
  }

  /** Repeats the first `m` bytes of the pattern at distance `i`. */
  method CopyBlock(o: array<byte>, off: nat, dist: nat, i: nat, m: nat, ghost base: seq<byte>)
    requires |base| == dist && 1 <= dist <= off && off + i + m <= o.Length && m <= i + dist && i % dist == 0
    requires Repeats(o[..], off, i, base)
    modifies o
    ensures OnlyIn(o, off + i, off + i + m) && Repeats(o[..], off, i + m, base)
  {
    hide Repeats;
    ghost var before := o[..];
    Memcpy(o, off + i, off - dist, m);
    RepeatsMore(before, o[..], off, i, m, base);
  }

  /** The fast form: doubles the copied block, then copies block by block. Writes at most max(n, 16) bytes. */
  method RecCpyFast(o: array<byte>, off: nat, dist: nat, n: nat)
    requires 1 <= dist <= off && off + (if n <= 16 then 16 else n) <= o.Length
    modifies o
    ensures OnlyIn(o, off, off + if n <= 16 then 16 else n) && o[..off + n] == RecCpy(old(o[..off]), dist, n)
  {
    hide RecCpy, Repeats;
    ghost var out := o[..off];
    ghost var base := out[off - dist..];
    ModZero(dist);
    FirstRepeat(o[..], off, out, dist);
    if dist >= n {
      CopyBlock(o, off, dist, 0, n, base);
      RepeatsIsRecCpy(o[..], off, n, out, dist);
      if n <= 16 {
        ghost var done := o[..off + n];
        Scratch(o, off + n, off + 16);
        assert o[..off + n] == done;
      }
      return;
    }
    var chunk := dist;
    CopyBlock(o, off, dist, 0, chunk, base);
    var i := chunk;
    while chunk < 8192 && i + chunk < n
      invariant dist <= chunk == i < n && chunk % dist == 0
      invariant OnlyIn(o, off, off + n) && Repeats(o[..], off, i, base)
    {
      CopyBlock(o, off, dist, i, chunk, base);
      ModSum(chunk, chunk, dist);
      i := i + chunk;
      chunk := chunk + chunk;
    }
    var n2 := n - chunk;
    while i < n2
      invariant chunk <= i <= n && i % dist == 0
      invariant OnlyIn(o, off, off + n) && Repeats(o[..], off, i, base)
    {
      CopyBlock(o, off, dist, i, chunk, base);
      ModSum(i, chunk, dist);
      i := i + chunk;
    }
    if i < n {
      CopyBlock(o, off, dist, i, n - i, base);
    }
    RepeatsIsRecCpy(o[..], off, n, out, dist);
  }

  /** Bytes whose value nobody relies on. */
  method Scratch(o: array<byte>, lo: nat, hi: nat)
    requires lo <= hi <= o.Length
    modifies o
    ensures OnlyIn(o, lo, hi)
  {
    var i := lo;
    while i < hi
      invariant lo <= i <= hi && OnlyIn(o, lo, hi)
    {
      var junk: byte := *;
      o[i] := junk;
      i := i + 1;
    }
  }

  lemma FirstRepeat(s: seq<byte>, off: nat, out: seq<byte>, dist: nat)
    requires 1 <= dist <= off == |out| <= |s| && s[..off] == out
    ensures Repeats(s, off, 0, out[off - dist..])
  {
    forall k | off - dist <= k < off
      ensures s[k] == out[off - dist..][(k - (off - dist)) % dist]
    {
      ModUnique(k - (off - dist), dist, 0, k - (off - dist));
      assert s[k] == s[..off][k];
    }
  }

  lemma ModZero(d: nat)
    requires d > 0
    ensures 0 % d == 0 && d % d == 0
  {
    ModUnique(0, d, 0, 0);
    ModUnique(d, d, 1, 0);
  }

  lemma ModSum(a: nat, b: nat, d: nat)
    requires d > 0 && a % d == 0 && b % d == 0
    ensures (a + b) % d == 0
  {
    var q := b / d;
    assert b == d * q;
    ModShift(a, d, q);
  }
}
