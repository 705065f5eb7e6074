/** LZ77 compression and decompression (senc.c). */
module Lz {
  import opened Bits
  import opened LzFormat
  import opened LzPlan
  import opened RecCopy
  import opened Varint

  /** The announced room for the compressed form of `ss` bytes. */
  function MaxOut(ss: nat): nat {
    ss + (ss / 8) * 10 + 32
  }

  /** Nine quarters of the input and 32 bytes, less than ten bytes lost to rounding. */
  lemma MaxOutIs(ss: nat)
    ensures 9 * ss + 128 - 40 < 4 * MaxOut(ss) <= 9 * ss + 128
  {
  }

  function Covered(t: Token): nat {
    match t
    case Lit(bytes) => |bytes|
    case Ref(_, len) => len
  }

  /** What the compressor never stores: a distant reference to just four bytes. */
  predicate Worthwhile(t: Token) {
    t.Ref? ==> !(t.dist > 500000 && t.len == 4)
  }

  /** An operation costs at most twice the bytes it covers. */
  lemma TokenCost(t: Token)
    requires WellSized(t) && Worthwhile(t)
    ensures |Emit(t)| <= 2 * Covered(t)
  {
  }

  lemma StSizes(v: nat)
    ensures PkSize(v) <= StSize(v) <= PkSize(v) + 3 && 1 <= PkSize(v) <= 9
  {
  }

  method StoreLit(o: array<byte>, off: nat, s: array<byte>, from: nat, size: nat) returns (end: nat)
    requires s != o && from + size <= s.Length && 1 <= size < LIMIT && off + PkSize(LitOp(size)) + size + 3 <= o.Length
    modifies o
    ensures OnlyIn(o, off, o.Length)
    ensures end == off + PkSize(LitOp(size)) + size && o[off..end] == Pk(LitOp(size)) + s[from..from + size]
  {
    StSizes(LitOp(size));
    hide LitOp, Pk, PkSize, StSize;
    var p := StPk(o, off, LitOp(size));
    ghost var head := o[off..p];
    end := p + size;
    CopyIn(o, p, s, from, size);
    assert o[off..p] == head;
    Join(o[..], off, p, end);
  }

  lemma Join<T>(s: seq<T>, a: nat, b: nat, c: nat)
    requires a <= b <= c <= |s|
    ensures s[a..c] == s[a..b] + s[b..c]
  {
  }

  /** memcpy between two buffers. */
  method CopyIn(o: array<byte>, dst: nat, s: array<byte>, src: nat, n: nat)
    requires s != o && src + n <= s.Length && dst + n <= o.Length
    modifies o
    ensures OnlyIn(o, dst, dst + n) && o[dst..dst + n] == s[src..src + n]
  {
    var i := 0;
    while i < n
      invariant i <= n && OnlyIn(o, dst, dst + i)
      invariant forall k :: dst <= k < dst + i ==> o[k] == s[k - dst + src]
    {
      o[dst + i] := s[src + i];
      i := i + 1;
    }
  }

  method StoreRef(o: array<byte>, off: nat, dist: nat, len: nat) returns (end: nat)
    requires WellSized(Ref(dist, len)) && off + |Emit(Ref(dist, len))| + 3 <= o.Length
    modifies o
    ensures OnlyIn(o, off, o.Length)
    ensures end == off + |Emit(Ref(dist, len))| && o[off..end] == Emit(Ref(dist, len))
  {
    var dm1, lm4 := dist - 1, len - 4;
    if dm1 < 0x2000_0000_0000_0000 && lm4 < 4 {
      StSizes(dm1 * 8 + lm4 * 2);
      hide Pk, PkSize, StSize;
      end := StPk(o, off, dm1 * 8 + lm4 * 2);
    } else {
      StSizes(lm4 * 4 + 1);
      StSizes(dm1);
      hide Pk, PkSize, StSize;
      var p := StPk(o, off, lm4 * 4 + 1);
      ghost var head := o[off..p];
      end := StPk(o, p, dm1);
      assert o[off..p] == head;
      Join(o[..], off, p, end);
    }
  }

  /** The `n` bytes at `a` and at `b` are the same (memcmp gives 0). */
  predicate Same(s: seq<byte>, a: nat, b: nat, n: nat) {
    a + n <= |s| && b + n <= |s| && s[a..a + n] == s[b..b + n]
  }

  lemma SameMore(s: seq<byte>, a: nat, b: nat, n: nat, m: nat)
    requires Same(s, a, b, n) && Same(s, a + n, b + n, m)
    ensures Same(s, a, b, n + m)
  {
    Join(s, a, a + n, a + n + m);
    Join(s, b, b + n, b + n + m);
  }

  lemma SameNone(s: seq<byte>, a: nat, b: nat)
    requires a <= |s| && b <= |s|
    ensures Same(s, a, b, 0)
  {
  }

  lemma SameOne(s: seq<byte>, a: nat, b: nat)
    requires a < |s| && b < |s| && s[a] == s[b]
    ensures Same(s, a, b, 1)
  {
  }

  /** Whole blocks of eight. */
  function Chunks(n: nat): (r: nat)
    ensures 8 * r <= n
  {
    n / 8
  }

  /** Length of the common prefix, at most `maxSize`: eight bytes at a time, then one by one. */
  method Match(s: array<byte>, a: nat, b: nat, maxSize: nat) returns (off: nat)
    requires a + maxSize <= s.Length && b + maxSize <= s.Length
    ensures off <= maxSize && Same(s[..], a, b, off)
    ensures off < maxSize ==> s[a + off] != s[b + off]
  {
    hide Chunks, Same;
    var msc := Chunks(maxSize) * 8;
    off := 0;
    ghost var left := Chunks(maxSize);
    SameNone(s[..], a, b);
    while off < msc && Same(s[..], a + off, b + off, 8)
      invariant msc == off + 8 * left && Same(s[..], a, b, off)
    {
      SameMore(s[..], a, b, off, 8);
      off, left := off + 8, left - 1;
    }
    while off < maxSize && s[a + off] == s[b + off]
      invariant off <= maxSize && Same(s[..], a, b, off)
    {
      SameOne(s[..], a + off, b + off);
      SameMore(s[..], a, b, off, 1);
      off := off + 1;
    }
  }

  /** The hash of four bytes loaded as a word; the table index is its low bits. */
  function Hash(w32: nat, hashElems: nat): (h: nat)
    requires hashElems > 0
    ensures h < hashElems
  {
    (w32 / 0x100_0000 + w32 / 0x10_0000 + w32 / 0x2000 + w32) % hashElems
  }

  lemma {:induction false} LeInjective(a: seq<byte>, b: seq<byte>)
    requires |a| == |b| && Le(a) == Le(b)
    ensures a == b
  {
    if a != [] {
      assert a[0] == Le(a) % 0x100 == b[0];
      LeInjective(a[1..], b[1..]);
      assert a == [a[0]] + a[1..] && b == [b[0]] + b[1..];
    }
  }

  lemma SameWords(s: array<byte>, a: nat, b: nat)
    requires a + 4 <= s.Length && b + 4 <= s.Length && Le(s[a..a + 4]) == Le(s[b..b + 4])
    ensures Same(s[..], a, b, 4)
  {
    LeInjective(s[a..a + 4], s[b..b + 4]);
    assert s[..][a..a + 4] == s[a..a + 4] && s[..][b..b + 4] == s[b..b + 4];
  }

  /** Bytes that equal those `dist` back are what a reference reproduces. */
  lemma {:induction false} SameIsRecCpy(s: seq<byte>, i: nat, dist: nat, len: nat)
    requires 1 <= dist <= i && i + len <= |s| && Same(s, i, i - dist, len)
    ensures RecCpy(s[..i], dist, len) == s[..i + len]
  {
    if len > 0 {
      var n := len - 1;
      assert s[i..i + len][..n] == s[i..i + n] && s[i - dist..i - dist + len][..n] == s[i - dist..i - dist + n];
      SameIsRecCpy(s, i, dist, n);
      RecCpySnoc(s[..i], dist, n);
      assert s[i..i + len][n] == s[i + n] && s[i - dist..i - dist + len][n] == s[i + n - dist];
      assert s[..i + n][i + n - dist] == s[i + n - dist];
      assert s[..i + len] == s[..i + n] + [s[i + n]];
    }
  }

  /** The compressor's state: the operations stored so far stand for the input before `plit`. */
  ghost predicate Packed(s: seq<byte>, o: seq<byte>, p: nat, plit: nat, ts: seq<Token>) {
    plit <= |s| && Playable(ts) && (forall t :: t in ts ==> WellSized(t)) && Play(ts) == s[..plit]
    && p <= |o| && o[..p] == Pk(|s|) + EmitAll(ts) && p <= 9 + 2 * plit
  }

  lemma PackedMore(s: seq<byte>, o: seq<byte>, o': seq<byte>, p: nat, p': nat, plit: nat, plit': nat,
      ts: seq<Token>, t: Token)
    requires Packed(s, o, p, plit, ts) && TokenOk(t, plit) && Worthwhile(t) && plit' == plit + Covered(t) <= |s|
    requires Apply(s[..plit], t) == s[..plit']
    requires p' == p + |Emit(t)| <= |o'| == |o| && o'[..p] == o[..p] && o'[p..p'] == Emit(t)
    ensures Packed(s, o', p', plit', ts + [t])
  {
    hide Apply, Emit, EmitAll, Pk, Play, Playable, TokenOk;
    Extend(ts, t);
    TokenCost(t);
    Join(o', 0, p, p');
    assert (Pk(|s|) + EmitAll(ts)) + Emit(t) == Pk(|s|) + (EmitAll(ts) + Emit(t));
  }

  /** The literals from `plit` up to `i`, if any, become an operation. */
  method FlushLiterals(s: array<byte>, ss: nat, o: array<byte>, off: nat, plit: nat, i: nat, ghost ts: seq<Token>)
    returns (end: nat, ghost us: seq<Token>)
    requires s != o && plit <= i <= ss <= s.Length && ss < LIMIT && MaxOut(ss) <= o.Length
    requires Packed(s[..ss], o[..], off, plit, ts)
    modifies o
    ensures Packed(s[..ss], o[..], end, i, us)
    ensures us == if i > plit then ts + [Lit(s[plit..i])] else ts
  {
    hide Apply, Covered, Emit, EmitAll, LitOp, MaxOut, Packed, Pk, PkSize, Play, Playable, RecCpy, Same, Stream,
         TokenOk, WellSized, Worthwhile;
    end, us := off, ts;
    if i - plit > 0 {
      ghost var t := Lit(s[plit..i]);
      ghost var before := o[..];
      LitReady(t, plit);
      PackedBounds(s[..ss], o[..], off, plit, ts);
      assert s[..ss][..plit] + s[plit..i] == s[..ss][..i];
      ApplyLit(s[..ss][..plit], t);
      RoomLeft(ss);
      end := StoreLit(o, off, s, plit, i - plit);
      PackedMore(s[..ss], before, o[..], off, end, plit, i, ts, t);
      us := ts + [t];
    }
  }

  lemma LitReady(t: Token, pos: nat)
    requires t.Lit? && 1 <= |t.bytes| < LIMIT
    ensures WellSized(t) && TokenOk(t, pos) && Worthwhile(t) && Covered(t) == |t.bytes| && |Emit(t)| <= 2 * |t.bytes|
    ensures Emit(t) == Pk(LitOp(|t.bytes|)) + t.bytes
  {
    TokenCost(t);
  }

  lemma RefReady(t: Token, pos: nat)
    requires t.Ref? && 1 <= t.dist <= pos < LIMIT && 4 <= t.len < LIMIT && Worthwhile(t)
    ensures WellSized(t) && TokenOk(t, pos) && Covered(t) == t.len && |Emit(t)| <= 2 * t.len
  {
    TokenCost(t);
  }

  lemma ApplyLit(out: seq<byte>, t: Token)
    requires t.Lit? && WellSized(t)
    ensures TokenOk(t, |out|) && Apply(out, t) == out + t.bytes
  {
  }

  lemma RoomLeft(ss: nat)
    ensures 2 * ss + 23 <= MaxOut(ss)
  {
  }

  lemma PackedBounds(s: seq<byte>, o: seq<byte>, p: nat, plit: nat, ts: seq<Token>)
    requires Packed(s, o, p, plit, ts)
    ensures p <= 9 + 2 * plit && p <= |o| && plit <= |s|
  {
  }

  /** Stores the reference for the match at `i`, `dist` back. */
  method PackMatch(s: array<byte>, ss: nat, o: array<byte>, off: nat, i: nat, dist: nat, len: nat, ghost ts: seq<Token>)
    returns (end: nat, ghost us: seq<Token>)
    requires s != o && ss <= s.Length && ss < LIMIT && MaxOut(ss) <= o.Length
    requires 1 <= dist <= i && i + len <= ss && len >= 4 && Same(s[..ss], i, i - dist, len)
    requires Worthwhile(Ref(dist, len)) && Packed(s[..ss], o[..], off, i, ts)
    modifies o
    ensures Packed(s[..ss], o[..], end, i + len, us) && us == ts + [Ref(dist, len)]
  {
    hide Apply, Covered, Emit, EmitAll, LitOp, MaxOut, Packed, Pk, PkSize, Play, Playable, RecCpy, Same, Stream,
         TokenOk, WellSized, Worthwhile;
    ghost var t := Ref(dist, len);
    ghost var before := o[..];
    RefReady(t, i);
    PackedBounds(s[..ss], o[..], off, i, ts);
    SameIsRecCpy(s[..ss], i, dist, len);
    ApplyRef(s[..ss][..i], t);
    RoomLeft(ss);
    end := StoreRef(o, off, dist, len);
    PackedMore(s[..ss], before, o[..], off, end, i, i + len, ts, t);
    us := ts + [t];
  }

  lemma ApplyRef(out: seq<byte>, t: Token)
    requires t.Ref? && TokenOk(t, |out|)
    ensures Apply(out, t) == RecCpy(out, t.dist, t.len)
  {
  }

  function Range(v: nat, l: nat, r: nat): nat {
    if v <= l then l else if v >= r then r else v
  }

  /** Table size as a power of two. */
  method HashSize(ss: nat, hashMaxBits: nat) returns (hashSize: nat)
    requires 0 < ss < LIMIT && hashMaxBits >= 3
    ensures Pow2(hashSize) == TableSize(ss, hashMaxBits)
  {
    var hashSize0 := Slog2(ss);
    hashSize0 := (if hashSize0 < 10 then 10 else hashSize0) - 2;
    hashSize := Range(hashSize0, 3, hashMaxBits);
  }

  /** The word's hash is the one of its bytes. */
  lemma HashIsSlot(s: seq<byte>, i: nat, elems: nat)
    requires i + 4 <= |s| && elems > 0
    ensures Hash(Le(s[i..i + 4]), elems) == Slot(s, i, elems)
  {
    var w := s[i..i + 4];
    LeFour(w);
    WordParts(w[0], w[1], w[2], w[3]);
  }

  lemma LeFour(w: seq<byte>)
    requires |w| == 4
    ensures var a: nat, b: nat, c: nat, d: nat := w[0], w[1], w[2], w[3];
            Le(w) == a + 0x100 * b + 0x1_0000 * c + 0x100_0000 * d
  {
    var b: nat, c: nat, d: nat := w[1], w[2], w[3];
    assert w[1..][1..] == w[2..] && w[2..][1..] == w[3..] && w[3..][1..] == [];
    assert Le(w[3..]) == d;
    assert Le(w[2..]) == c + 0x100 * d;
    assert Le(w[1..]) == b + 0x100 * (c + 0x100 * d);
  }

  lemma WordParts(a: byte, b: byte, c: byte, d: byte)
    ensures var a': nat, b': nat, c': nat, d': nat := a, b, c, d;
            var w := a' + 0x100 * b' + 0x1_0000 * c' + 0x100_0000 * d';
            w / 0x100_0000 == d' && w / 0x10_0000 == 16 * d' + c' / 16 && w / 0x2000 == 2048 * d' + 8 * c' + b' / 32
  {
    var a': nat, b': nat, c': nat, d': nat := a, b, c, d;
    var w := a' + 0x100 * b' + 0x1_0000 * c' + 0x100_0000 * d';
    var q, r := c' / 16, c' % 16;
    assert c' == 16 * q + r;
    var q', r' := b' / 32, b' % 32;
    assert b' == 32 * q' + r';
    Drop24(w, d');
    Drop20(w, 16 * d' + q);
    Drop13(w, 2048 * d' + 8 * c' + q');
  }

  lemma Drop24(w: nat, q: nat)
    requires 0x100_0000 * q <= w < 0x100_0000 * q + 0x100_0000
    ensures w / 0x100_0000 == q
  {
  }

  lemma Drop20(w: nat, q: nat)
    requires 0x10_0000 * q <= w < 0x10_0000 * q + 0x10_0000
    ensures w / 0x10_0000 == q
  {
  }

  lemma Drop13(w: nat, q: nat)
    requires 0x2000 * q <= w < 0x2000 * q + 0x2000
    ensures w / 0x2000 == q
  {
  }

  /** Looks up the last place with the same hash as the four bytes at `i`, enters `i`, and measures the match: 0 when
      those four bytes differ. */
  method FindMatch(s: array<byte>, ss: nat, i: nat, refs: array<nat>, ghost plan: seq<Place>)
    returns (last: nat, len: nat)
    requires i + 4 <= ss <= s.Length && Tracked(s[..ss], plan, refs[..], i)
    modifies refs
    ensures var h := Slot(s[..ss], i, refs.Length);
            h < refs.Length && refs[..] == old(refs[..])[h := i]
            && last == LastAt(s[..ss], plan, refs.Length, h, i - 1) < i
            && len == if Common(s[..ss], i, last) >= 4 then Common(s[..ss], i, last) else 0
    ensures len > 0 ==> i + len <= ss && Same(s[..ss], i, last, len)
  {
    hide Common, Hash, LastAt, Le, Same, Slot, Told;
    ghost var src := s[..ss];
    assert s[..][..ss] == src;
    SliceOfFront(s[..], ss, i);
    HashIsSlot(src, i, refs.Length);
    var w32 := LdLe(s, i, 4);
    var h := Hash(w32, refs.Length);
    last := refs[h];
    assert last == refs[..][h];
    refs[h] := i;
    var w := LdLe(s, last, 4);
    SliceOfFront(s[..], ss, last);
    if w32 != w {
      CommonFour(src, i, last);
      return last, 0;
    }
    len := Match(s, i + 4, last + 4, ss - i - 4);
    SameWords(s, i, last);
    SameMore(s[..], i, last, 4, len);
    len := len + 4;
    MatchIs(s[..], ss, i, last, len);
  }

  lemma SliceOfFront(s: seq<byte>, ss: nat, i: nat)
    requires i + 4 <= ss <= |s|
    ensures s[i..i + 4] == s[..ss][i..i + 4]
  {
  }

  lemma MatchIs(s: seq<byte>, ss: nat, i: nat, j: nat, n: nat)
    requires j <= i && i + n <= ss <= |s| && Same(s, i, j, n) && (i + n < ss ==> s[i + n] != s[j + n])
    ensures Same(s[..ss], i, j, n) && Common(s[..ss], i, j) == n
  {
    SameFront(s, ss, i, j, n);
    CommonIs(s[..ss], i, j, n);
  }

  method NewTable(s: array<byte>, ss: nat, hashElems: nat) returns (refs: array<nat>)
    requires hashElems > 0 && 4 <= ss <= s.Length
    ensures fresh(refs) && refs.Length == hashElems && Tracked(s[..ss], [Plain], refs[..], 1)
  {
    refs := new nat[hashElems](_ => 0);
    var w32 := LdLe(s, 0, 4);
    refs[Hash(w32, hashElems)] := 0;
  }

  /** The compression loop. What it leaves, from `plit` on, is still to be stored as literals. */
  method PackMatches(s: array<byte>, ss: nat, o: array<byte>, off: nat, refs: array<nat>)
    returns (p: nat, plit: nat, ghost ts: seq<Token>)
    requires s != o && 5 <= ss <= s.Length && ss < LIMIT && MaxOut(ss) <= o.Length && Packed(s[..ss], o[..], off, 0, [])
    requires refs.Length > 0 && Tracked(s[..ss], [Plain], refs[..], 1)
    modifies o, refs
    ensures plit <= ss && Packed(s[..ss], o[..], p, plit, ts)
    ensures EndsInRef(ts) && Greedy(s[..ss], SoFar(ts, plit, ss), refs.Length)
  {
    hide EndsInRef, Greedy, MaxOut, Packed, Same, SoFar, Tracked;
    ghost var src, elems := s[..ss], refs.Length;
    p, plit, ts := off, 0, [];
    var i := 1;
    StartPlan();
    while i <= ss - 4
      invariant 1 <= i <= ss && plit <= i && EndsInRef(ts)
      invariant s[..ss] == src && Packed(src, o[..], p, plit, ts) && Tracked(src, SoFar(ts, plit, i), refs[..], i)
      decreases ss - i
    {
      ghost var before, plan := refs[..], SoFar(ts, plit, i);
      var last, len := FindMatch(s, ss, i, refs, plan);
      var dist := i - last;
      if len == 0 || (dist > 500000 && len == 4) {
        LiteralStep(src, ts, before, plit, i);
        i := i + 1;
      } else {
        ReferenceStep(src, ts, before, s[plit..i], plit, i, dist, len);
        p, ts := FlushLiterals(s, ss, o, p, plit, i, ts);
        p, ts := PackMatch(s, ss, o, p, i, dist, len, ts);
        i := i + len;
        plit := i;
      }
    }
    RestStep(src, ts, refs[..], plit, i);
  }

  /** Literal operations are apart, and none is last. */
  predicate EndsInRef(ts: seq<Token>) {
    LitsApart(ts) && (ts != [] ==> ts[|ts| - 1].Ref?)
  }

  lemma StartPlan()
    ensures SoFar([], 0, 1) == [Plain] && EndsInRef([])
  {
  }

  lemma LiteralStep(s: seq<byte>, ts: seq<Token>, refs: seq<nat>, plit: nat, i: nat)
    requires plit <= i && i + 4 <= |s| && Tracked(s, SoFar(ts, plit, i), refs, i)
    requires var last := LastAt(s, SoFar(ts, plit, i), |refs|, Slot(s, i, |refs|), i - 1);
             Common(s, i, last) < 4 || (i - last > 500000 && Common(s, i, last) == 4)
    ensures Slot(s, i, |refs|) < |refs|
    ensures Tracked(s, SoFar(ts, plit, i + 1), refs[Slot(s, i, |refs|) := i], i + 1)
  {
    hide Common, Slot, Told;
    var plan := SoFar(ts, plit, i);
    RepeatMore(Plain, i - plit);
    assert SoFar(ts, plit, i + 1) == plan + [Plain];
    LastPrefix(s, plan, plan + [Plain], |refs|, Slot(s, i, |refs|), i - 1);
    ToldIs(s, plan + [Plain], |refs|, i);
    TrackPlace(s, plan, refs, i, Plain);
  }

  lemma ToldIs(s: seq<byte>, plan: seq<Place>, elems: nat, i: nat)
    requires elems > 0 && 0 < i < |plan| && i <= |s|
    ensures var j := LastAt(s, plan, elems, Slot(s, i, elems), i - 1);
            var len := Common(s, i, j);
            Told(s, plan, elems, i)
            <==> plan[i] == if len >= 4 && !(i - j > 500000 && len == 4) then Copied(i - j, len) else Plain
  {
  }

  lemma ReferenceStep(s: seq<byte>, ts: seq<Token>, refs: seq<nat>, lits: seq<byte>, plit: nat, i: nat, dist: nat,
                      len: nat)
    requires plit <= i && i + 4 <= |s| && Tracked(s, SoFar(ts, plit, i), refs, i) && EndsInRef(ts)
    requires |lits| == i - plit && i + len <= |s|
    requires var last := LastAt(s, SoFar(ts, plit, i), |refs|, Slot(s, i, |refs|), i - 1);
             len == Common(s, i, last) >= 4 && dist == i - last && !(dist > 500000 && len == 4)
    ensures Slot(s, i, |refs|) < |refs|
    ensures var us := (if i > plit then ts + [Lit(lits)] else ts) + [Ref(dist, len)];
            EndsInRef(us) && Tracked(s, SoFar(us, i + len, i + len), refs[Slot(s, i, |refs|) := i], i + len)
  {
    hide Common, EndsInRef, LastAt, Slot, SoFar, Told, Tracked;
    var plan, x := SoFar(ts, plit, i), Copied(dist, len);
    var flushed := if i > plit then ts + [Lit(lits)] else ts;
    SoFarLength(s, plan, refs, i);
    LastPrefix(s, plan, plan + [x], |refs|, Slot(s, i, |refs|), i - 1);
    ToldIs(s, plan + [x], |refs|, i);
    TrackPlace(s, plan, refs, i, x);
    TrackInside(s, plan + [x], refs[Slot(s, i, |refs|) := i], i + 1, len - 1);
    ReferencePlan(ts, lits, plit, i, dist, len);
  }

  lemma SoFarLength(s: seq<byte>, plan: seq<Place>, refs: seq<nat>, i: nat)
    requires Tracked(s, plan, refs, i)
    ensures |plan| == i > 0 && |refs| > 0
  {
  }

  /** The literals before a reference and the reference, added to the plan. */
  lemma ReferencePlan(ts: seq<Token>, lits: seq<byte>, plit: nat, i: nat, dist: nat, len: nat)
    requires plit <= i && |lits| == i - plit && len >= 4 && EndsInRef(ts)
    ensures var us := (if i > plit then ts + [Lit(lits)] else ts) + [Ref(dist, len)];
            EndsInRef(us)
            && SoFar(us, i + len, i + len) == (SoFar(ts, plit, i) + [Copied(dist, len)]) + Repeat(Inside, len - 1)
  {
    hide Plan, Repeat;
    var flushed := if i > plit then ts + [Lit(lits)] else ts;
    if i > plit {
      PlanMore(ts, Lit(lits));
    }
    PlanMore(flushed, Ref(dist, len));
    RepeatNone();
    assert Plan(flushed) == SoFar(ts, plit, i);
  }

  lemma RepeatNone()
    ensures Repeat(Plain, 0) == []
  {
  }

  lemma RestStep(s: seq<byte>, ts: seq<Token>, refs: seq<nat>, plit: nat, i: nat)
    requires plit <= i <= |s| < i + 4 && Tracked(s, SoFar(ts, plit, i), refs, i)
    ensures Greedy(s, SoFar(ts, plit, |s|), |refs|)
  {
    TrackEnd(s, SoFar(ts, plit, i), refs, i);
    assert SoFar(ts, plit, i) + Repeat(Plain, |s| - i) == SoFar(ts, plit, |s|);
  }

  lemma LastFlush(ts: seq<Token>, lits: seq<byte>, plit: nat, ss: nat)
    requires plit <= ss && |lits| == ss - plit && EndsInRef(ts)
    ensures var us := if ss > plit then ts + [Lit(lits)] else ts; LitsApart(us) && Plan(us) == SoFar(ts, plit, ss)
  {
    if ss > plit {
      PlanMore(ts, Lit(lits));
    }
  }

  /** Fewer than five bytes are stored as they are. */
  lemma SmallPlan(s: seq<byte>, elems: nat)
    requires 0 < |s| < 5 && elems > 0
    ensures Plan([Lit(s)]) == Repeat(Plain, |s|) && Greedy(s, Plan([Lit(s)]), elems)
  {
    assert [Lit(s)][..0] == [];
    PlanMore([], Lit(s));
  }

  /** Compresses the first `ss` bytes of `s`. The output stands for them, and the references in it are those of the
      greedy search. */
  method SencLz(s: array<byte>, ss: nat, o: array<byte>, hashMaxBits: nat) returns (n: nat, ghost ts: seq<Token>)
    requires s != o && 0 < ss <= s.Length && ss < LIMIT && MaxOut(ss) <= o.Length && hashMaxBits >= 3
    modifies o
    ensures n <= 9 + 2 * ss < MaxOut(ss) && n <= o.Length && Stream(o[..n], ts) && Play(ts) == s[..ss]
    ensures TableSize(ss, hashMaxBits) > 0 && Greedy(s[..ss], Plan(ts), TableSize(ss, hashMaxBits)) && LitsApart(ts)
  {
    RoomLeft(ss);
    StSizes(ss);
    var p := StPk(o, 0, ss);
    ts := [];
    ghost var src := s[..ss];
    PackedStart(src, o[..], p);
    hide EndsInRef, Greedy, MaxOut, Packed, Play, Playable, Same, SoFar, Stream, TableSize, TokenOk, Tracked;
    var hashSize := HashSize(ss, hashMaxBits);
    if ss < 5 {
      SmallPlan(src, Pow2(hashSize));
      p, ts := FlushLiterals(s, ss, o, p, 0, ss, ts);
      assert s[0..ss] == src && [] + [Lit(src)] == [Lit(src)];
      PackedStream(src, o[..], p, ts);
      n := p;
      return;
    }
    var refs := NewTable(s, ss, Pow2(hashSize));
    var plit;
    p, plit, ts := PackMatches(s, ss, o, p, refs);
    LastFlush(ts, s[plit..ss], plit, ss);
    p, ts := FlushLiterals(s, ss, o, p, plit, ss, ts);
    PackedStream(src, o[..], p, ts);
    n := p;
  }

  lemma SameFront(s: seq<byte>, ss: nat, a: nat, b: nat, n: nat)
    requires Same(s, a, b, n) && a + n <= ss <= |s| && b + n <= ss
    ensures Same(s[..ss], a, b, n)
  {
    assert s[..ss][a..a + n] == s[a..a + n] && s[..ss][b..b + n] == s[b..b + n];
  }

  lemma PackedStart(s: seq<byte>, o: seq<byte>, p: nat)
    requires p <= |o| && o[..p] == Pk(|s|)
    ensures Packed(s, o, p, 0, [])
  {
    assert Pk(|s|) + [] == Pk(|s|);
    StSizes(|s|);
  }

  lemma PackedStream(s: seq<byte>, o: seq<byte>, p: nat, ts: seq<Token>)
    requires Packed(s, o, p, |s|, ts) && 0 < |s| < LIMIT
    ensures p <= 9 + 2 * |s| && p <= |o| && Stream(o[..p], ts) && Play(ts) == s
  {
  }

  /* ---- decompression ---- */

  /** Operation `k` of the stream lies at `pos` of the input. */
  predicate OpAt(s: seq<byte>, ss: nat, t: Token, pos: nat) {
    WellSized(t) && pos + |Emit(t)| <= ss <= |s| && s[pos..pos + |Emit(t)|] == Emit(t)
  }

  lemma NextOp(s: seq<byte>, ss: nat, ts: seq<Token>, k: nat, pos: nat)
    requires ss <= |s| && Stream(s[..ss], ts) && k < |ts| && pos == PkSize(|Play(ts)|) + Start(ts, k)
    ensures OpAt(s, ss, ts[k], pos) && TokenOk(ts[k], |Play(ts[..k])|) && pos < ss
    ensures Start(ts, k + 1) == Start(ts, k) + |Emit(ts[k])|
  {
    hide *;
    StreamAt(s[..ss], ts, k);
    OpInFront(s, ss, ts[k], pos);
  }

  lemma OpInFront(s: seq<byte>, ss: nat, t: Token, pos: nat)
    requires ss <= |s| && WellSized(t) && pos + |Emit(t)| <= ss && s[..ss][pos..pos + |Emit(t)|] == Emit(t)
    ensures OpAt(s, ss, t, pos)
  {
    hide Emit;
    var n := |Emit(t)|;
    assert s[pos..pos + n] == s[..ss][pos..pos + n];
  }

  /* ---- the fields of an operation's first number ---- */

  lemma ModTwo(x: nat, y: nat)
    requires x == 2 * y + 1
    ensures x % 2 == 1
  {
  }

  lemma ModFour(x: nat, q: nat, r: nat)
    requires x == 4 * q + r && r < 4
    ensures x / 4 == q && x % 4 == r
  {
  }

  lemma LitParts(n: nat)
    requires n >= 1
    ensures LitOp(n) % 2 == 1 && LitOp(n) % 4 == 3 && LitOp(n) / 4 + 1 == n
  {
    ModTwo(LitOp(n), 2 * (n - 1) + 1);
    ModFour(LitOp(n), n - 1, 3);
  }

  lemma ShortParts(dist: nat, len: nat)
    requires dist >= 1 && 4 <= len < 8
    ensures ShortOp(dist, len) % 2 == 0 && ShortOp(dist, len) / 2 % 4 + 4 == len && ShortOp(dist, len) / 8 + 1 == dist
  {
    assert ShortOp(dist, len) / 2 == (dist - 1) * 4 + (len - 4);
  }

  lemma LongParts(len: nat)
    requires len >= 4
    ensures LongOp(len) % 2 == 1 && LongOp(len) % 4 == 1 && LongOp(len) / 4 + 4 == len
  {
    ModTwo(LongOp(len), 2 * (len - 4));
    ModFour(LongOp(len), len - 4, 1);
  }

  lemma OpSmall(t: Token)
    requires WellSized(t)
    ensures t.Lit? ==> LitOp(|t.bytes|) < TWO64
    ensures t.Ref? ==> ShortOp(t.dist, t.len) < TWO64 || t.len >= 8
    ensures t.Ref? ==> LongOp(t.len) < TWO64
  {
  }

  lemma LitAt(s: seq<byte>, ss: nat, t: Token, pos: nat)
    requires OpAt(s, ss, t, pos) && t.Lit?
    ensures var v := LitOp(|t.bytes|); var q := pos + PkSize(v);
            v % 2 == 1 && v % 4 == 3 && v / 4 + 1 == |t.bytes| && PackedAt(s, pos, ss - pos, v)
              && q + |t.bytes| == pos + |Emit(t)| <= ss && s[q..q + |t.bytes|] == t.bytes
  {
    OpSmall(t);
    LitParts(|t.bytes|);
    hide PkSize, LitOp, Pk;
    Front(s, pos, Pk(LitOp(|t.bytes|)), t.bytes);
  }

  lemma ShortAt(s: seq<byte>, ss: nat, t: Token, pos: nat)
    requires OpAt(s, ss, t, pos) && t.Ref? && t.len < 8
    ensures var v := ShortOp(t.dist, t.len);
            v % 2 == 0 && v / 2 % 4 + 4 == t.len && v / 8 + 1 == t.dist && PackedAt(s, pos, ss - pos, v)
              && PkSize(v) == |Emit(t)|
  {
    OpSmall(t);
    ShortParts(t.dist, t.len);
    hide PkSize, ShortOp, Pk;
  }

  lemma LongAt(s: seq<byte>, ss: nat, t: Token, pos: nat)
    requires OpAt(s, ss, t, pos) && t.Ref? && t.len >= 8
    ensures var v := LongOp(t.len); var q := pos + PkSize(v);
            v % 2 == 1 && v % 4 == 1 && v / 4 + 4 == t.len && t.dist >= 1 && PackedAt(s, pos, ss - pos, v)
            && q < ss && PackedAt(s, q, ss - q, t.dist - 1) && q + PkSize(t.dist - 1) == pos + |Emit(t)|
  {
    OpSmall(t);
    LongParts(t.len);
    hide PkSize, LongOp, Pk;
    Front(s, pos, Pk(LongOp(t.len)), Pk(t.dist - 1));
  }

  lemma Front(s: seq<byte>, pos: nat, a: seq<byte>, b: seq<byte>)
    requires pos + |a| + |b| <= |s| && s[pos..pos + |a| + |b|] == a + b
    ensures s[pos..pos + |a|] == a && s[pos + |a|..pos + |a| + |b|] == b
  {
    assert s[pos..pos + |a|] == (a + b)[..|a|];
    assert s[pos + |a|..pos + |a| + |b|] == (a + b)[|a|..];
  }

  lemma HeaderAt(s: seq<byte>, ss: nat, ts: seq<Token>)
    requires ss <= |s| && Stream(s[..ss], ts)
    ensures PackedAt(s, 0, ss, |Play(ts)|) && PkSize(|Play(ts)|) < ss && ss >= 3
  {
    StreamLength(s[..ss], ts);
    hide Play, PkSize, EmitAll;
    var h := Pk(|Play(ts)|);
    assert s[0..|h|] == s[..ss][..|h|] == h;
  }

  lemma StartZero(s: seq<byte>, ts: seq<Token>)
    requires Stream(s, ts)
    ensures (forall t :: t in ts ==> WellSized(t)) && Start(ts, 0) == 0 && Play(ts[..0]) == []
  {
  }

  lemma MoreOps(s: seq<byte>, ss: nat, ts: seq<Token>, k: nat, pos: nat)
    requires ss <= |s| && Stream(s[..ss], ts) && k <= |ts| && pos == PkSize(|Play(ts)|) + Start(ts, k)
    ensures pos < ss <==> k < |ts|
    ensures k == |ts| ==> ts[..k] == ts
  {
    hide Play, PkSize;
    StreamEnd(s[..ss], ts);
    EmitPrefix(ts, k);
  }

  /** Loads the numbers of one operation: kind, distance and length. */
  method ReadOp(s: array<byte>, ss: nat, pos: nat, ghost t: Token) returns (lit: bool, dist: nat, len: nat, end: nat)
    requires ss + 8 <= s.Length && pos < ss && OpAt(s[..], ss, t, pos)
    ensures lit == t.Lit?
    ensures t.Lit? ==>
              len == |t.bytes| && end + len == pos + |Emit(t)| && end + len <= s.Length && s[end..end + len] == t.bytes
    ensures t.Ref? ==> dist == t.dist && len == t.len && end == pos + |Emit(t)|
  {
    hide *;
    if t.Lit? {
      LitAt(s[..], ss, t, pos);
    } else if t.len < 8 {
      ShortAt(s[..], ss, t, pos);
    } else {
      LongAt(s[..], ss, t, pos);
    }
    var op64;
    op64, end := LdPk(s, pos, ss - pos);
    lit, dist := false, 0;
    if op64 % 2 == 0 {
      len, dist := op64 / 2 % 4 + 4, op64 / 8 + 1;
    } else if op64 % 4 == 3 {
      lit, len := true, op64 / 4 + 1;
    } else {
      len := op64 / 4 + 4;
      assert PackedAt(s[..], end, ss - end, t.dist - 1);
      dist, end := LdPk(s, end, ss - end);
      dist := dist + 1;
    }
  }

  /** One round of the decoder's loop, at `pos` of the input and `n` of the output. */
  method Execute(s: array<byte>, ss: nat, pos: nat, o: array<byte>, n: nat, expected: nat, ghost t: Token)
    returns (pos': nat, n': nat)
    requires s != o && ss + 8 <= s.Length && pos < ss && OpAt(s[..], ss, t, pos)
    requires n <= expected && expected + 16 <= o.Length && TokenOk(t, n) && |Apply(o[..n], t)| <= expected
    modifies o
    ensures pos' == pos + |Emit(t)| && n' == |Apply(old(o[..n]), t)| <= expected && o[..n'] == Apply(old(o[..n]), t)
  {
    hide Emit, OpAt, RecCpy;
    ghost var out := o[..n];
    var lit, dist, len;
    lit, dist, len, pos' := ReadOp(s, ss, pos, t);
    n' := n + len;
    if n' > expected {
      pos', n' := ss, n;
    } else if lit {
      CopyIn(o, n, s, pos', len);
      assert o[..n'] == out + o[n..n'];
      pos' := pos' + len;
    } else {
      RecCpyFast(o, n, dist, len);
    }
  }

  /** Unpacks the `ss` bytes of `s`, which hold a complete stream. Number loads read whole words, and short copies write
      16 bytes: both buffers have that much slack. */
  method SdecLz(s: array<byte>, ss: nat, o: array<byte>, ghost ts: seq<Token>) returns (n: nat)
    requires s != o && ss + 8 <= s.Length && Stream(s[..ss], ts) && |Play(ts)| + 16 <= o.Length
    modifies o
    ensures n == |Play(ts)| && o[..n] == Play(ts)
  {
    hide *;
    HeaderAt(s[..], ss, ts);
    n := 0;
    if ss >= 3 {
      var expected, pos := LdPk(s, 0, ss);
      if pos < ss {
        n := Unpack(s, ss, pos, o, expected, ts);
      }
    }
  }

  /** The decoder's loop. */
  method Unpack(s: array<byte>, ss: nat, start: nat, o: array<byte>, expected: nat, ghost ts: seq<Token>)
      returns (n: nat)
    requires s != o && ss + 8 <= s.Length && Stream(s[..ss], ts) && start == PkSize(|Play(ts)|)
    requires expected == |Play(ts)| && expected + 16 <= o.Length
    modifies o
    ensures n == |Play(ts)| && o[..n] == Play(ts)
  {
    hide *;
    n := 0;
    var pos := start;
    ghost var k := 0;
    StartZero(s[..ss], ts);
    while pos < ss
      invariant k <= |ts| && pos == PkSize(|Play(ts)|) + Start(ts, k)
      invariant n == |Play(ts[..k])| && n <= expected && o[..n] == Play(ts[..k])
      decreases |ts| - k
    {
      MoreOps(s[..], ss, ts, k, pos);
      NextOp(s[..], ss, ts, k, pos);
      PlayStep(ts, k);
      pos, n := Execute(s, ss, pos, o, n, expected, ts[k]);
      k := k + 1;
    }
    MoreOps(s[..], ss, ts, k, pos);
  }

  /** Decompression undoes compression, for every input and either table size; both buffers have the announced sizes. */
  method RoundTrip(s: array<byte>, ss: nat, hashMaxBits: nat)
      returns (packed: array<byte>, n: nat, out: array<byte>, m: nat)
    requires 0 < ss <= s.Length && ss < LIMIT && hashMaxBits >= 3
    ensures n <= MaxOut(ss) == packed.Length && m == ss <= out.Length && out[..m] == s[..ss]
  {
    packed := new byte[MaxOut(ss)](_ => 0);
    ghost var ts;
    n, ts := SencLz(s, ss, packed, hashMaxBits);
    RoomLeft(ss);
    out := new byte[ss + 16](_ => 0);
    m := SdecLz(packed, n, out, ts);
  }
}
