/** Which references the compressor of senc.c stores, said of the input and the stored operations alone. */
module LzPlan {
  import opened Bits
  import opened LzFormat
  import opened Varint

  /** How the stored operations cover a place of the input: as a literal, as the first place of a reference, or as a
      later one. */
  datatype Place = Plain | Copied(dist: nat, len: nat) | Inside

  function Repeat(p: Place, n: nat): (s: seq<Place>)
    ensures |s| == n && forall i :: 0 <= i < n ==> s[i] == p
  {
    seq(n, _ => p)
  }

  function Mark(t: Token): seq<Place> {
    match t
    case Lit(bytes) => Repeat(Plain, |bytes|)
    case Ref(dist, len) => if len == 0 then [] else [Copied(dist, len)] + Repeat(Inside, len - 1)
  }

  function Plan(ts: seq<Token>): seq<Place> {
    if ts == [] then [] else Plan(ts[..|ts| - 1]) + Mark(ts[|ts| - 1])
  }

  /** No literal operation follows another. */
  predicate LitsApart(ts: seq<Token>) {
    forall k :: 0 < k < |ts| ==> ts[k - 1].Ref? || ts[k].Ref?
  }

  /** Length of the longest common prefix of what follows `i` and what follows `j`. */
  function Common(s: seq<byte>, i: nat, j: nat): nat
    requires j <= i <= |s|
    decreases |s| - i
  {
    if i == |s| || s[i] != s[j] then 0 else 1 + Common(s, i + 1, j + 1)
  }

  /** Table index of the four bytes at `i`; none where there are fewer. */
  function Slot(s: seq<byte>, i: nat, elems: nat): nat
    requires elems > 0
  {
    if i + 4 > |s| then elems
    else
      var a: nat, b: nat, c: nat, d: nat := s[i], s[i + 1], s[i + 2], s[i + 3];
      (d + (16 * d + c / 16) + (2048 * d + 8 * c + b / 32) + (a + 0x100 * b + 0x1_0000 * c + 0x100_0000 * d)) % elems
  }

  /** The last place up to `j` at which an operation or a literal byte starts and that has table index `h`; 0 if there
      is none. */
  function LastAt(s: seq<byte>, plan: seq<Place>, elems: nat, h: nat, j: nat): (k: nat)
    requires elems > 0 && j < |plan|
    ensures k <= j
  {
    if j == 0 then 0
    else if plan[j] != Inside && Slot(s, j, elems) == h then j
    else LastAt(s, plan, elems, h, j - 1)
  }

  /** What is stored at `i`: a reference to the last place with the same index when the four bytes there are the same,
      as long as it goes, unless it is far away and four long only; else a literal. */
  predicate Told(s: seq<byte>, plan: seq<Place>, elems: nat, i: nat)
    requires elems > 0 && 0 < i < |plan| && i <= |s|
  {
    var j := LastAt(s, plan, elems, Slot(s, i, elems), i - 1);
    var len := Common(s, i, j);
    plan[i] == if len >= 4 && !(i - j > 500000 && len == 4) then Copied(i - j, len) else Plain
  }

  /** The references are those of a greedy search: they start wherever one can, the first place and the last three being
      literals. */
  predicate Greedy(s: seq<byte>, plan: seq<Place>, elems: nat)
    requires elems > 0
  {
    |plan| == |s|
    && forall i :: 0 <= i < |s| && plan[i] != Inside ==>
                     if 0 < i <= |s| - 4 then Told(s, plan, elems, i) else plan[i] == Plain
  }

  /** Entries of the table: a quarter of the input as a power of two, at least 2^8 and at most 2^maxBits. */
  function TableSize(ss: nat, maxBits: nat): nat {
    var bits := if Log2(ss) > 10 then Log2(ss) - 2 else 8;
    Pow2(if bits > maxBits then maxBits else bits)
  }

  lemma PlanMore(ts: seq<Token>, t: Token)
    ensures Plan(ts + [t]) == Plan(ts) + Mark(t)
  {
    assert (ts + [t])[..|ts|] == ts;
  }

  lemma RepeatMore(p: Place, n: nat)
    ensures Repeat(p, n) + [p] == Repeat(p, n + 1)
  {
  }

  lemma {:induction false} CommonIs(s: seq<byte>, i: nat, j: nat, n: nat)
    requires j <= i && i + n <= |s| && s[i..i + n] == s[j..j + n] && (i + n < |s| ==> s[i + n] != s[j + n])
    ensures Common(s, i, j) == n
    decreases n
  {
    if n > 0 {
      assert s[i] == s[i..i + n][0] == s[j..j + n][0] == s[j];
      assert s[i + 1..i + n] == s[i..i + n][1..] && s[j + 1..j + n] == s[j..j + n][1..];
      CommonIs(s, i + 1, j + 1, n - 1);
    }
  }

  lemma {:induction false} CommonFour(s: seq<byte>, i: nat, j: nat)
    requires j <= i && i + 4 <= |s| && s[i..i + 4] != s[j..j + 4]
    ensures Common(s, i, j) < 4
  {
    assert s[i..i + 4] == [s[i], s[i + 1], s[i + 2], s[i + 3]];
    assert s[j..j + 4] == [s[j], s[j + 1], s[j + 2], s[j + 3]];
    var c1, c2, c3 := Common(s, i + 1, j + 1), Common(s, i + 2, j + 2), Common(s, i + 3, j + 3);
    assert c2 >= 2 ==> c3 >= 1 && s[i + 2] == s[j + 2] && s[i + 3] == s[j + 3];
    assert c1 >= 3 ==> c2 >= 2;
  }

  lemma {:induction false} LastPrefix(s: seq<byte>, p: seq<Place>, q: seq<Place>, elems: nat, h: nat, j: nat)
    requires elems > 0 && j < |p| && p <= q
    ensures LastAt(s, p, elems, h, j) == LastAt(s, q, elems, h, j)
  {
    hide Slot;
    if j > 0 {
      LastPrefix(s, p, q, elems, h, j - 1);
    }
  }

  lemma {:induction false} LastInside(s: seq<byte>, p: seq<Place>, n: nat, elems: nat, h: nat)
    requires elems > 0 && p != []
    ensures LastAt(s, p + Repeat(Inside, n), elems, h, |p| + n - 1) == LastAt(s, p, elems, h, |p| - 1)
  {
    hide Slot;
    if n > 0 {
      LastInside(s, p, n - 1, elems, h);
      LastPrefix(s, p + Repeat(Inside, n - 1), p + Repeat(Inside, n), elems, h, |p| + n - 2);
    } else {
      assert p + Repeat(Inside, 0) == p;
    }
  }

  /* ---- the compressor's state ---- */

  /** The plan of the input before `i`, the bytes from `plit` on being literals still to be stored. */
  function SoFar(ts: seq<Token>, plit: nat, i: nat): seq<Place>
    requires plit <= i
  {
    Plan(ts) + Repeat(Plain, i - plit)
  }

  /** The table holds the last place of each index, and the places before `i` are told. */
  ghost predicate Tracked(s: seq<byte>, plan: seq<Place>, refs: seq<nat>, i: nat) {
    |refs| > 0 && 0 < i == |plan| <= |s| && plan[0] == Plain
    && (forall h :: 0 <= h < |refs| ==> refs[h] == LastAt(s, plan, |refs|, h, i - 1))
    && (forall p :: 0 < p < i && plan[p] != Inside ==> p + 4 <= |s| && Told(s, plan, |refs|, p))
  }

  lemma ToldPrefix(s: seq<byte>, p: seq<Place>, q: seq<Place>, elems: nat, i: nat)
    requires elems > 0 && 0 < i < |p| && p <= q && i <= |s|
    ensures Told(s, p, elems, i) == Told(s, q, elems, i)
  {
    LastPrefix(s, p, q, elems, Slot(s, i, elems), i - 1);
  }

  /** One place more, with what is stored there. */
  lemma TrackPlace(s: seq<byte>, plan: seq<Place>, refs: seq<nat>, i: nat, x: Place)
    requires Tracked(s, plan, refs, i) && i + 4 <= |s| && x != Inside && Told(s, plan + [x], |refs|, i)
    ensures Slot(s, i, |refs|) < |refs| && Tracked(s, plan + [x], refs[Slot(s, i, |refs|) := i], i + 1)
  {
    hide Slot, Told;
    var q, h := plan + [x], Slot(s, i, |refs|);
    SlotSmall(s, i, |refs|);
    var refs' := refs[h := i];
    forall k | 0 <= k < |refs|
      ensures refs'[k] == LastAt(s, q, |refs|, k, i)
    {
      LastPrefix(s, plan, q, |refs|, k, i - 1);
    }
    forall p | 0 < p <= i && q[p] != Inside
      ensures p + 4 <= |s| && Told(s, q, |refs|, p)
    {
      if p < i {
        assert plan[p] == q[p];
        ToldPrefix(s, plan, q, |refs|, p);
      }
    }
  }

  lemma SlotSmall(s: seq<byte>, i: nat, elems: nat)
    requires elems > 0 && i + 4 <= |s|
    ensures Slot(s, i, elems) < elems
  {
  }

  lemma TrackInside(s: seq<byte>, plan: seq<Place>, refs: seq<nat>, i: nat, n: nat)
    requires Tracked(s, plan, refs, i) && i + n <= |s|
    ensures Tracked(s, plan + Repeat(Inside, n), refs, i + n)
  {
    hide Slot, Told;
    var q := plan + Repeat(Inside, n);
    forall h | 0 <= h < |refs|
      ensures refs[h] == LastAt(s, q, |refs|, h, i + n - 1)
    {
      LastInside(s, plan, n, |refs|, h);
    }
    forall p | 0 < p < i + n && q[p] != Inside
      ensures p + 4 <= |s| && Told(s, q, |refs|, p)
    {
      assert p < i && plan[p] == q[p];
      ToldPrefix(s, plan, q, |refs|, p);
    }
  }

  /** Where the loop stops, the rest are literals. */
  lemma TrackEnd(s: seq<byte>, plan: seq<Place>, refs: seq<nat>, i: nat)
    requires Tracked(s, plan, refs, i) && i + 4 > |s|
    ensures Greedy(s, plan + Repeat(Plain, |s| - i), |refs|)
  {
    hide Slot, Told;
    var q := plan + Repeat(Plain, |s| - i);
    forall p | 0 <= p < |s| && q[p] != Inside
      ensures if 0 < p <= |s| - 4 then Told(s, q, |refs|, p) else q[p] == Plain
    {
      if p < i {
        assert plan[p] == q[p];
        if p > 0 {
          ToldPrefix(s, plan, q, |refs|, p);
        }
      }
    }
  }
}
