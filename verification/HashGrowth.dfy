/** Growing the hash map (shmap.c, shmap.h): header sizes, thresholds, and the move that turns the element array. */
module HashGrowth {
  import opened Bits
  import opened HashTable

  /** Bytes of one bucket. */
  const BUCKET := 12

  /** Map header and buckets, rounded up to a multiple of the element size. */
  function HdrSize(hdr0: nat, es: nat, nbuckets: nat): (h: nat)
    requires es > 0
    ensures h % es == 0 && hdr0 + nbuckets * 12 <= h < hdr0 + nbuckets * 12 + es
  {
    var hs := hdr0 + nbuckets * BUCKET;
    var hsr := hs % es;
    RoundUp(hs, es);
    if hsr != 0 then hs - hsr + es else hs
  }

  lemma RoundUp(hs: nat, es: nat)
    requires es > 0
    ensures hs % es == 0 || (hs - hs % es + es) % es == 0
  {
    var q, r := hs / es, hs % es;
    assert hs - r + es == es * (q + 1);
    MultipleMod(q + 1, es);
  }

  lemma MultipleMod(q: nat, es: nat)
    requires es > 0
    ensures (es * q) % es == 0 && (es * q) / es == q
  {
    DivBounds(es * q, es);
    var d := (es * q) / es;
    if d < q {
      MulMonotone(d + 1, q, es);
    } else if d > q {
      MulMonotone(q + 1, d, es);
    }
    assert es * q == es * d + (es * q) % es;
  }

  lemma MulCancel(a: nat, b: nat, c: nat)
    requires c * a < c * b
    ensures a < b
  {
    if a >= b {
      MulMonotone(b, a, c);
    }
  }

  lemma Distribute(a: nat, b: nat, es: nat)
    ensures (a + b) * es == a * es + b * es
  {
  }

  lemma Multiples(a: nat, b: nat, es: nat)
    requires es > 0 && a % es == 0 && b % es == 0 && a < b + es
    ensures a <= b && (b - a) % es == 0
  {
    var p, q := a / es, b / es;
    assert a == es * p && b == es * q;
    MulCancel(p, q + 1, es);
    MulMonotone(p, q, es);
    assert b - a == es * (q - p);
    MultipleMod(q - p, es);
  }

  /** Header sizes grow with the number of buckets. */
  lemma HdrGrows(hdr0: nat, es: nat, n1: nat, n2: nat)
    requires es > 0 && n1 <= n2
    ensures HdrSize(hdr0, es, n1) <= HdrSize(hdr0, es, n2)
    ensures (HdrSize(hdr0, es, n2) - HdrSize(hdr0, es, n1)) % es == 0
  {
    var a, b := HdrSize(hdr0, es, n1), HdrSize(hdr0, es, n2);
    Multiples(a, b, es);
  }

  /** `pct` percent of `q`, dividing first when `q` is large. */
  function Pct(q: nat, pct: nat): nat {
    if q > 10000 then (q / 100) * pct else (q * pct) / 100
  }

  /** The exact share rounded down, above 10000 to a multiple of `pct`. */
  lemma PctBounds(q: nat, pct: nat)
    requires pct > 0
    ensures 100 * Pct(q, pct) <= q * pct < 100 * Pct(q, pct) + if q > 10000 then 100 * pct else 100
    ensures q > 10000 ==> Pct(q, pct) % pct == 0
  {
    var a, r := q / 100, q % 100;
    assert q == 100 * a + r;
    Distribute(100 * a, r, pct);
    MulMonotone(r, 99, pct);
    MultipleMod(a, pct);
  }

  lemma ThresholdBounds(hbits: nat)
    requires 1 <= hbits <= 32
    ensures Pct(Pow2(hbits), 90) < Pow2(hbits) <= 0x1_0000_0000 && Pct(Pow2(hbits), 90) < 0xffff_ffff
    ensures Pct(Pow2(hbits), 90) < Pct(Pow2(hbits + 1), 90)
  {
    SmallPowers();
    if hbits < 32 {
      Pow2Monotone(hbits, 32);
    }
    if hbits > 1 {
      Pow2Monotone(1, hbits);
    }
  }

  /* ---- the bytes ---- */

  /** Copying `n` cells as if through a buffer. */
  function Memmove<T>(m: seq<T>, dst: nat, src: nat, n: nat): (c: seq<T>)
    requires dst + n <= |m| && src + n <= |m|
    ensures |c| == |m|
  {
    m[..dst] + m[src..src + n] + m[dst + n..]
  }

  /** Bytes of `i` elements. */
  function Span(i: nat, es: nat): nat {
    i * es
  }

  /** Element `i` of the block that starts at `base`. */
  function Item<T>(m: seq<T>, base: nat, es: nat, i: nat): seq<T>
    requires base + Span(i, es) + es <= |m|
  {
    m[base + Span(i, es)..base + Span(i, es) + es]
  }

  /** The block of `n` elements that starts at `base`. */
  function Items<T>(m: seq<T>, base: nat, es: nat, n: nat): (r: seq<seq<T>>)
    requires base + Span(n, es) <= |m|
    ensures |r| == n
    ensures forall i :: 0 <= i < n ==> Span(i, es) + es <= Span(n, es) && r[i] == Item(m, base, es, i)
  {
    if n == 0 then [] else Items(m, base, es, n - 1) + [Item(m, base, es, n - 1)]
  }

  /** The one move made when the header grows from `hs1` to `hs2` bytes in front of `n` elements. */
  function GrowMove<T>(m: seq<T>, hs1: nat, hs2: nat, es: nat, n: nat): (c: seq<T>)
    requires hs1 <= hs2 && hs2 + Span(n, es) <= |m|
    ensures |c| == |m|
  {
    if Span(n, es) <= hs2 - hs1 then Memmove(m, hs2, hs1, Span(n, es))
      else Memmove(m, hs1 + Span(n, es), hs1, hs2 - hs1)
  }

  /** How far the element block turns. */
  function Turn(hs1: nat, hs2: nat, es: nat, n: nat): (q: nat)
    requires hs1 <= hs2 && es > 0 && (hs2 - hs1) % es == 0
    ensures q <= n
  {
    var q := (hs2 - hs1) / es;
    assert hs2 - hs1 == es * q;
    if Span(n, es) <= hs2 - hs1 then
      0
    else
      assert q <= n by {
        if q > n {
          MulMonotone(n, q, es);
        }
      }
      q
  }

  lemma MovedInside<T>(m: seq<T>, dst: nat, src: nat, n: nat, from: nat, len: nat)
    requires dst + n <= |m| && src + n <= |m| && dst <= from && from + len <= dst + n
    ensures Memmove(m, dst, src, n)[from..from + len] == m[from - dst + src..from - dst + src + len]
  {
    var c := Memmove(m, dst, src, n);
    assert forall k :: dst <= k < dst + n ==> c[k] == m[k - dst + src];
    var x, y := c[from..from + len], m[from - dst + src..from - dst + src + len];
    assert forall k :: 0 <= k < len ==> x[k] == y[k];
  }

  lemma MovedBefore<T>(m: seq<T>, dst: nat, src: nat, n: nat, from: nat, len: nat)
    requires dst + n <= |m| && src + n <= |m| && from + len <= dst
    ensures Memmove(m, dst, src, n)[from..from + len] == m[from..from + len]
  {
    var c := Memmove(m, dst, src, n);
    assert forall k :: 0 <= k < dst ==> c[k] == m[k];
  }

  /** Offsets of items `i` and `j` when `j` is `q` items on, around `n`. */
  lemma Offsets(i: nat, q: nat, n: nat, es: nat)
    requires i < n && q <= n
    ensures var j := if i + q < n then i + q else i + q - n;
            Span(i, es) + es <= Span(n, es) && Span(j, es) + es <= Span(n, es)
            && Span(j, es) == Span(i, es) + Span(q, es) - (if i + q < n then 0 else Span(n, es))
            && (i + q >= n ==> Span(j, es) + es <= Span(q, es))
  {
    var j := if i + q < n then i + q else i + q - n;
    Distribute(i, 1, es);
    Distribute(j, 1, es);
    MulMonotone(i + 1, n, es);
    MulMonotone(j + 1, n, es);
    Distribute(i, q, es);
    if i + q >= n {
      Distribute(j, n, es);
      MulMonotone(j + 1, q, es);
    }
  }

  lemma MovedItem<T>(m: seq<T>, hs1: nat, hs2: nat, es: nat, ne: nat, ie: nat, je: nat, wraps: bool)
    requires hs1 <= hs2 && hs2 + ne <= |m| && ie + es <= ne && je + es <= ne
    requires wraps ==> ne > hs2 - hs1 && je + es <= hs2 - hs1
    requires je == ie + (if ne <= hs2 - hs1 then 0 else hs2 - hs1) - (if wraps then ne else 0)
    ensures var c := if ne <= hs2 - hs1 then Memmove(m, hs2, hs1, ne) else Memmove(m, hs1 + ne, hs1, hs2 - hs1);
            |c| == |m| && c[hs2 + ie..hs2 + ie + es] == m[hs1 + je..hs1 + je + es]
  {
    hide Memmove;
    if ne <= hs2 - hs1 {
      MovedInside(m, hs2, hs1, ne, hs2 + ie, es);
    } else if wraps {
      MovedInside(m, hs1 + ne, hs1, hs2 - hs1, hs2 + ie, es);
    } else {
      MovedBefore(m, hs1 + ne, hs1, hs2 - hs1, hs2 + ie, es);
    }
  }

  lemma TurnedItem<T>(m: seq<T>, hs1: nat, hs2: nat, es: nat, n: nat, i: nat, t: nat)
    requires hs1 <= hs2 && hs2 + Span(n, es) <= |m| && i < n && t <= n
    requires Span(t, es) == if Span(n, es) > hs2 - hs1 then hs2 - hs1 else 0
    requires Span(n, es) <= hs2 - hs1 ==> t == 0
    ensures var j := if i + t < n then i + t else i + t - n;
            j < n && hs2 + Span(i, es) + es <= |m| && hs1 + Span(j, es) + es <= |m|
            && Item(GrowMove(m, hs1, hs2, es, n), hs2, es, i) == Item(m, hs1, es, j)
  {
    hide Memmove, Span;
    Offsets(i, t, n, es);
    var j := if i + t < n then i + t else i + t - n;
    MovedItem(m, hs1, hs2, es, Span(n, es), Span(i, es), Span(j, es), i + t >= n);
  }

  lemma TurnBytes(hs1: nat, hs2: nat, es: nat, n: nat)
    requires hs1 <= hs2 && es > 0 && (hs2 - hs1) % es == 0
    ensures Span(n, es) > hs2 - hs1 ==> Turn(hs1, hs2, es, n) * es == hs2 - hs1
    ensures Span(n, es) <= hs2 - hs1 ==> Turn(hs1, hs2, es, n) == 0
  {
    var q := (hs2 - hs1) / es;
    assert hs2 - hs1 == es * q;
  }

  lemma ItemsAt<T>(m: seq<T>, base: nat, es: nat, n: nat, i: nat)
    requires base + Span(n, es) <= |m| && i < n
    ensures |Items(m, base, es, n)| == n && base + Span(i, es) + es <= |m|
    ensures Items(m, base, es, n)[i] == Item(m, base, es, i)
  {
    hide Item, Items, Span;
  }

  lemma BlockTurned<T>(m: seq<T>, hs1: nat, hs2: nat, es: nat, n: nat, q: nat, a: seq<seq<T>>, b: seq<seq<T>>)
    requires hs1 <= hs2 && hs2 + Span(n, es) <= |m| && q <= n
    requires Span(q, es) == if Span(n, es) > hs2 - hs1 then hs2 - hs1 else 0
    requires Span(n, es) <= hs2 - hs1 ==> q == 0
    requires a == Items(GrowMove(m, hs1, hs2, es, n), hs2, es, n) && b == Items(m, hs1, es, n)
    ensures a == Turned(b, q)
  {
    hide GrowMove, Item, Items, Memmove, Span, Turned;
    forall i | 0 <= i < n
      ensures a[i] == b[if i + q < n then i + q else i + q - n]
    {
      TurnedItem(m, hs1, hs2, es, n, i, q);
      ItemsAt(GrowMove(m, hs1, hs2, es, n), hs2, es, n, i);
      ItemsAt(m, hs1, es, n, if i + q < n then i + q else i + q - n);
    }
    TurnedIs(b, q, a);
  }

  /** After the move, element `i` of the new block is element `i + q` of the old one, counted around: the block turned
      by whole elements. */
  lemma GrowTurnsBlock<T>(m: seq<T>, hs1: nat, hs2: nat, es: nat, n: nat)
    requires hs1 <= hs2 && es > 0 && (hs2 - hs1) % es == 0 && hs2 + Span(n, es) <= |m|
    ensures Items(GrowMove(m, hs1, hs2, es, n), hs2, es, n) == Turned(Items(m, hs1, es, n), Turn(hs1, hs2, es, n))
  {
    hide GrowMove, Items, Turn, Turned;
    TurnBytes(hs1, hs2, es, n);
    var q := Turn(hs1, hs2, es, n);
    BlockTurned(m, hs1, hs2, es, n, q, Items(GrowMove(m, hs1, hs2, es, n), hs2, es, n), Items(m, hs1, es, n));
  }

  lemma TurnedIs<T>(b: seq<T>, q: nat, a: seq<T>)
    requires |a| == |b| && q <= |b|
    requires forall i :: 0 <= i < |b| ==> a[i] == b[if i + q < |b| then i + q else i + q - |b|]
    ensures a == Turned(b, q)
  {
  }

  /** The element block after the header has grown. */
  predicate Grown(hs1: nat, hs2: nat, es: nat, before: seq<Elem>, after: seq<Elem>) {
    hs1 <= hs2 && es > 0 && (hs2 - hs1) % es == 0 && after == Turned(before, Turn(hs1, hs2, es, |before|))
  }

  lemma GrownLists(hs1: nat, hs2: nat, es: nat, data: seq<Elem>, m: map<int, int>)
    requires hs1 <= hs2 && es > 0 && (hs2 - hs1) % es == 0 && Lists(data, m)
    ensures var after := Turned(data, Turn(hs1, hs2, es, |data|));
            Grown(hs1, hs2, es, data, after) && Lists(after, m) && |after| == |data|
  {
    ListsTurned(data, m, Turn(hs1, hs2, es, |data|));
  }
}
