/** Rolling checksum search (ssearch.c). */
module Search {
  import opened Varint
  import opened Wrappers

  /* ---- what is looked for ---- */

  predicate Occurs(s: seq<byte>, t: seq<byte>, p: nat) {
    p + |t| <= |s| && s[p..p + |t|] == t
  }

  /** No occurrence at `lo` or later, before `hi`. */
  ghost predicate NoneIn(s: seq<byte>, t: seq<byte>, lo: nat, hi: nat) {
    forall p :: lo <= p < hi ==> !Occurs(s, t, p)
  }

  /** `r` is the first occurrence from `off` on. */
  ghost predicate FirstFrom(s: seq<byte>, t: seq<byte>, off: nat, r: Option<nat>) {
    match r
    case Some(p) => off <= p && Occurs(s, t, p) && NoneIn(s, t, off, p)
    case None => NoneIn(s, t, off, |s| + 1)
  }

  /* ---- checksums ---- */

  /** A position's share of the checksum: the fast form takes the byte, the slow form also the byte before. */
  function Csum(fast: bool, p: seq<byte>, i: nat): nat
    requires 1 <= i < |p|
  {
    var last: nat, here: nat := p[i - 1], p[i];
    if fast then here else 2 * (1 + last) + here
  }

  /** Sum of the shares of positions `lo` to `hi - 1`. */
  function Sum(fast: bool, p: seq<byte>, lo: nat, hi: nat): nat
    requires 1 <= lo <= hi <= |p|
  {
    if lo == hi then 0 else Sum(fast, p, lo, hi - 1) + Csum(fast, p, hi - 1)
  }

  /** The window of `n` bytes at `w`: all its positions but the first. */
  function Window(fast: bool, p: seq<byte>, w: nat, n: nat): nat
    requires n >= 1 && w + n <= |p|
  {
    Sum(fast, p, w + 1, w + n) % TWO32
  }

  lemma {:induction false} SumFront(fast: bool, p: seq<byte>, lo: nat, hi: nat)
    requires 1 <= lo < hi <= |p|
    ensures Sum(fast, p, lo, hi) == Csum(fast, p, lo) + Sum(fast, p, lo + 1, hi)
    decreases hi
  {
    if lo < hi - 1 {
      SumFront(fast, p, lo, hi - 1);
    } else {
      assert Sum(fast, p, lo, lo) == 0 && Sum(fast, p, lo + 1, hi) == 0;
    }
  }

  /** Where the target occurs, the window has the target's checksum. */
  lemma {:induction false} SameSum(fast: bool, s: seq<byte>, t: seq<byte>, w: nat, n: nat)
    requires 1 <= n <= |t| && Occurs(s, t, w)
    ensures Sum(fast, s, w + 1, w + n) == Sum(fast, t, 1, n)
    decreases n
  {
    if n > 1 {
      SameSum(fast, s, t, w, n - 1);
      assert s[w + n - 1] == s[w..w + |t|][n - 1] && s[w + n - 2] == s[w..w + |t|][n - 2];
    }
  }

  lemma OccursSameWindow(fast: bool, s: seq<byte>, t: seq<byte>, w: nat)
    requires t != [] && Occurs(s, t, w)
    ensures Window(fast, s, w, |t|) == Window(fast, t, 0, |t|)
  {
    SameSum(fast, s, t, w, |t|);
  }

  lemma ModPeriod(x: int, q: nat)
    ensures (TWO32 * q + x) % TWO32 == x % TWO32
  {
  }

  /** Moving the window by one: one position enters, one leaves. */
  lemma WindowMove(fast: bool, s: seq<byte>, w: nat, n: nat)
    requires n >= 1 && w + n < |s|
    ensures Window(fast, s, w + 1, n)
            == (Window(fast, s, w, n) + Csum(fast, s, w + n) - Csum(fast, s, w + 1)) % TWO32
  {
    var a := Sum(fast, s, w + 1, w + n);
    var full := Sum(fast, s, w + 1, w + n + 1);
    assert full == a + Csum(fast, s, w + n);
    SumFront(fast, s, w + 1, w + n + 1);
    ModMove(a, Csum(fast, s, w + n), Csum(fast, s, w + 1));
  }

  lemma ModMove(a: nat, x: nat, y: nat)
    requires y <= a + x
    ensures (a % TWO32 + x - y) % TWO32 == (a + x - y) % TWO32
  {
    var q := a / TWO32;
    assert a == TWO32 * q + a % TWO32;
    ModPeriod(a % TWO32 + x - y, q);
  }

  lemma WindowStart(fast: bool, p: seq<byte>, w: nat, n: nat)
    requires n >= 1 && w + n <= |p|
    ensures Sum(fast, p, w + 1, w + 1) % TWO32 == 0
  {
  }

  /** One more position in both checksums while they are being filled. */
  lemma SumMore(fast: bool, p: seq<byte>, lo: nat, hi: nat)
    requires 1 <= lo <= hi < |p|
    ensures Sum(fast, p, lo, hi + 1) % TWO32 == (Sum(fast, p, lo, hi) % TWO32 + Csum(fast, p, hi)) % TWO32
  {
    ModMove(Sum(fast, p, lo, hi), Csum(fast, p, hi), 0);
  }

  /** Adds `k` positions from `i` on to both checksums. */
  method Fill(fast: bool, s: array<byte>, w: nat, t: array<byte>, i: nat, k: nat, target: nat, current: nat)
    returns (target': nat, current': nat)
    requires i >= 1 && i + k <= t.Length && w + t.Length <= s.Length
    requires target == Sum(fast, t[..], 1, i) % TWO32 && current == Sum(fast, s[..], w + 1, w + i) % TWO32
    ensures target' == Sum(fast, t[..], 1, i + k) % TWO32
    ensures current' == Sum(fast, s[..], w + 1, w + i + k) % TWO32
  {
    hide Csum, Sum;
    target', current' := target, current;
    for j := 0 to k
      invariant target' == Sum(fast, t[..], 1, i + j) % TWO32
      invariant current' == Sum(fast, s[..], w + 1, w + i + j) % TWO32
    {
      SumMore(fast, t[..], 1, i + j);
      SumMore(fast, s[..], w + 1, w + i + j);
      target' := (target' + Csum(fast, t[..], i + j)) % TWO32;
      current' := (current' + Csum(fast, s[..], w + i + j)) % TWO32;
    }
  }

  /** Both checksums of the first window: four positions per round, then one by one. */
  method Prepare(fast: bool, s: array<byte>, w: nat, t: array<byte>) returns (target: nat, current: nat)
    requires t.Length >= 1 && w + t.Length <= s.Length
    ensures target == Window(fast, t[..], 0, t.Length) && current == Window(fast, s[..], w, t.Length)
  {
    hide Csum, Sum;
    var ts := t.Length;
    WindowStart(fast, t[..], 0, ts);
    WindowStart(fast, s[..], w, ts);
    target, current := 0, 0;
    var i := 1;
    while i + 4 < ts
      invariant 1 <= i <= ts
      invariant target == Sum(fast, t[..], 1, i) % TWO32 && current == Sum(fast, s[..], w + 1, w + i) % TWO32
    {
      target, current := Fill(fast, s, w, t, i, 4, target, current);
      i := i + 4;
    }
    while i < ts
      invariant 1 <= i <= ts
      invariant target == Sum(fast, t[..], 1, i) % TWO32 && current == Sum(fast, s[..], w + 1, w + i) % TWO32
    {
      target, current := Fill(fast, s, w, t, i, 1, target, current);
      i := i + 1;
    }
  }

  /** First position from `off` on that holds `c`. */
  method Memchr(s: array<byte>, off: nat, c: byte) returns (r: Option<nat>)
    requires off <= s.Length
    ensures r.Some? ==> off <= r.value < s.Length && s[r.value] == c && forall k :: off <= k < r.value ==> s[k] != c
    ensures r.None? ==> forall k :: off <= k < s.Length ==> s[k] != c
  {
    var i := off;
    while i < s.Length
      invariant off <= i <= s.Length && forall k :: off <= k < i ==> s[k] != c
    {
      if s[i] == c {
        return Some(i);
      }
      i := i + 1;
    }
    r := None;
  }

  /** No occurrence where the first byte differs. */
  lemma SkippedAhead(s: seq<byte>, t: seq<byte>, off: nat, w: nat)
    requires t != [] && forall k :: off <= k < w && k < |s| ==> s[k] != t[0]
    ensures NoneIn(s, t, off, if w < |s| then w else |s| + 1)
  {
    forall p | off <= p < (if w < |s| then w else |s| + 1)
      ensures !Occurs(s, t, p)
    {
      if p + |t| <= |s| {
        assert s[p..p + |t|][0] == s[p];
      }
    }
  }

  /** The scan stands with its window at `w`; nothing before has been missed. */
  ghost predicate Scanning(fast: bool, s: seq<byte>, t: seq<byte>, off: nat, w: nat, target: nat, current: nat) {
    t != [] && off <= w && w + |t| <= |s| && target == Window(fast, t, 0, |t|) && current == Window(fast, s, w, |t|)
    && NoneIn(s, t, off, w)
  }

  /** A window is ruled out by its checksum or by comparison. */
  lemma RuledOut(fast: bool, s: seq<byte>, t: seq<byte>, off: nat, w: nat, target: nat, current: nat)
    requires Scanning(fast, s, t, off, w, target, current) && (current != target || !Occurs(s, t, w))
    ensures NoneIn(s, t, off, w + 1)
  {
    if Occurs(s, t, w) {
      OccursSameWindow(fast, s, t, w);
    }
  }

  lemma Moved(fast: bool, s: seq<byte>, t: seq<byte>, off: nat, w: nat, target: nat, current: nat)
    requires Scanning(fast, s, t, off, w, target, current) && NoneIn(s, t, off, w + 1) && w + |t| < |s|
    ensures Scanning(fast, s, t, off, w + 1, target,
                     (current + Csum(fast, s, w + |t|) - Csum(fast, s, w + 1)) % TWO32)
  {
    WindowMove(fast, s, w, |t|);
  }

  lemma ScannedAll(s: seq<byte>, t: seq<byte>, off: nat, w: nat)
    requires t != [] && NoneIn(s, t, off, w) && w + |t| > |s|
    ensures FirstFrom(s, t, off, None)
  {
  }

  /** The scan has ruled out the window that ends at `e`. */
  ghost predicate Behind(fast: bool, s: seq<byte>, t: seq<byte>, off: nat, e: nat, target: nat, current: nat) {
    |t| <= e && Scanning(fast, s, t, off, e - |t|, target, current) && NoneIn(s, t, off, e - |t| + 1)
  }

  lemma RuledOutAt(fast: bool, s: seq<byte>, t: seq<byte>, off: nat, e: nat, target: nat, current: nat)
    requires |t| <= e && Scanning(fast, s, t, off, e - |t|, target, current)
    requires current != target || !Occurs(s, t, e - |t|)
    ensures Behind(fast, s, t, off, e, target, current)
  {
    RuledOut(fast, s, t, off, e - |t|, target, current);
  }

  /** Counts collisions that come close together: place of the first, and how many. */
  datatype Collisions = Collisions(off: nat, count: nat)

  /** One more collision with the window's end at `e`; tells whether they have become too many. */
  function Collide(c: Collisions, e: nat, off: nat, ts: nat): (Collisions, bool)
    requires off <= e
  {
    if c.off == 0 then (Collisions(e - off, 1), false)
    else if e - c.off > ts * 10 then (Collisions(e, 1), false)
    else (Collisions(c.off, c.count + 1), c.count + 1 > 2 + ts / 2)
  }

  /** Where the fast search hands over when the window that ends at `e` is ruled out and collisions are counted in `c`;
      None when it comes to an answer of its own. */
  function HandsOver(s: seq<byte>, t: seq<byte>, off: nat, e: nat, c: Collisions): Option<nat>
    requires t != [] && off + |t| <= e <= |s|
    decreases |s| - e
  {
    if e == |s| then
      None
    else
      var e' := e + 1;
      if Window(true, s, e' - |t|, |t|) != Window(true, t, 0, |t|) then HandsOver(s, t, off, e', c)
      else if Occurs(s, t, e' - |t|) then None
      else
        var (c', many) := Collide(c, e', off, |t|);
        if many then Some(e') else HandsOver(s, t, off, e', c')
  }

  lemma HandsOverStep(s: seq<byte>, t: seq<byte>, off: nat, e: nat, c: Collisions, w: nat)
    requires t != [] && off + |t| <= e < |s| && w == Window(true, s, e + 1 - |t|, |t|)
    ensures HandsOver(s, t, off, e, c)
            == if w != Window(true, t, 0, |t|) then HandsOver(s, t, off, e + 1, c)
               else if Occurs(s, t, e + 1 - |t|) then None
               else var r := Collide(c, e + 1, off, |t|); if r.1 then Some(e + 1) else HandsOver(s, t, off, e + 1, r.0)
  {
    hide Window, Collide;
  }

  /** Moves the window up to `n` positions, until the checksums agree. `e` is the end of the window. */
  method Advance(fast: bool, s: array<byte>, t: array<byte>, ghost off: nat, e: nat, n: nat, target: nat, current: nat,
                 ghost c: Collisions)
    returns (e': nat, current': nat, hit: bool)
    requires n >= 1 && e + n <= s.Length && Behind(fast, s[..], t[..], off, e, target, current)
    ensures e < e' <= e + n && hit == (current' == target)
    ensures t.Length <= e' && Scanning(fast, s[..], t[..], off, e' - t.Length, target, current')
    ensures !hit ==> Behind(fast, s[..], t[..], off, e', target, current')
    ensures fast && off + t.Length <= e ==>
              HandsOver(s[..], t[..], off, if hit then e' - 1 else e', c) == HandsOver(s[..], t[..], off, e, c)
  {
    hide Csum, HandsOver, Occurs, NoneIn, Window;
    e', current', hit := e, current, false;
    var j := 0;
    while j < n && !hit
      invariant j <= n && e' == e + j && (hit ==> j > 0) && hit == (j > 0 && current' == target)
      invariant Scanning(fast, s[..], t[..], off, e' - t.Length, target, current')
      invariant !hit ==> Behind(fast, s[..], t[..], off, e', target, current')
      invariant fast && off + t.Length <= e ==>
                  HandsOver(s[..], t[..], off, if hit then e' - 1 else e', c) == HandsOver(s[..], t[..], off, e, c)
    {
      if fast && off + t.Length <= e {
        HandsOverStep(s[..], t[..], off, e', c, Window(true, s[..], e' + 1 - t.Length, t.Length));
      }
      Moved(fast, s[..], t[..], off, e' - t.Length, target, current');
      current' := (current' + Csum(fast, s[..], e') - Csum(fast, s[..], 1 + e' - t.Length)) % TWO32;
      e', j := e' + 1, j + 1;
      hit := current' == target;
      if !hit {
        RuledOutAt(fast, s[..], t[..], off, e', target, current');
      }
    }
  }

  /** Searches from `off` on with the slow checksum. */
  method FindCsumSlow(s0: array<byte>, off: nat, t: array<byte>) returns (r: Option<nat>)
    requires off <= s0.Length && t.Length >= 1
    ensures FirstFrom(s0[..], t[..], off, r)
  {
    hide Behind, FirstFrom, NoneIn, Occurs, Scanning, Window;
    ghost var src, pat := s0[..], t[..];
    var ss, ts := s0.Length, t.Length;
    var first := Memchr(s0, off, t[0]);
    SkippedAhead(src, pat, off, if first.Some? then first.value else ss);
    if first.None? || ss - first.value < ts {
      NotThere(src, pat, off, if first.Some? then first.value else ss + 1);
      return None;
    }
    var s := first.value;
    var target, current := Prepare(false, s0, s, t);
    StartScan(false, src, pat, off, s);
    if current == target && Occurs(s0[..], t[..], s) {
      FoundFirst(src, pat, off, s);
      return Some(s);
    }
    s := s + ts;
    RuledOutAt(false, src, pat, off, s, target, current);
    var hit;
    while s + 16 <= ss - 1
      invariant ts <= s <= ss && Behind(false, src, pat, off, s, target, current)
      decreases ss - s
    {
      s, current, hit := Advance(false, s0, t, off, s, 16, target, current, Collisions(0, 0));
      if hit {
        if Occurs(s0[..], t[..], s - ts) {
          FoundScanning(false, src, pat, off, s - ts, target, current);
          return Some(s - ts);
        }
        RuledOutAt(false, src, pat, off, s, target, current);
      }
    }
    while s <= ss - 1
      invariant ts <= s <= ss && Behind(false, src, pat, off, s, target, current)
      decreases ss - s
    {
      s, current, hit := Advance(false, s0, t, off, s, 1, target, current, Collisions(0, 0));
      if hit {
        if Occurs(s0[..], t[..], s - ts) {
          FoundScanning(false, src, pat, off, s - ts, target, current);
          return Some(s - ts);
        }
        RuledOutAt(false, src, pat, off, s, target, current);
      }
    }
    BehindAll(false, src, pat, off, s, target, current);
    r := None;
  }

  /** The fast search gave up at `h`, after ruling out all that ends by there, and the slow one went on from `h`. */
  ghost predicate HandedOver(s: seq<byte>, t: seq<byte>, off: nat, h: nat, r: Option<nat>) {
    off + |t| <= h <= |s| && NoneIn(s, t, off, h - |t| + 1) && FirstFrom(s, t, h, r)
  }

  /** After handing over, the answer is the first occurrence exactly when none straddles the place of the hand-over. */
  lemma FirstDespiteHandOver(s: seq<byte>, t: seq<byte>, off: nat, h: nat, r: Option<nat>)
    requires t != [] && HandedOver(s, t, off, h, r)
    ensures r.Some? ==> off <= r.value && Occurs(s, t, r.value)
    ensures FirstFrom(s, t, off, r) <==> NoneIn(s, t, h - |t| + 1, h)
  {
  }

  /** First position from `off` on that holds `x`, the length if there is none. */
  function FirstByte(s: seq<byte>, off: nat, x: byte): (p: nat)
    requires off <= |s|
    ensures off <= p <= |s| && (p < |s| ==> s[p] == x) && forall k :: off <= k < p ==> s[k] != x
    decreases |s| - off
  {
    if off == |s| || s[off] == x then off else FirstByte(s, off + 1, x)
  }

  /** Whether, and where, a fast search from `off` on hands over. */
  function Switches(s: seq<byte>, t: seq<byte>, off: nat): Option<nat>
    requires t != [] && off <= |s|
  {
    var w := FirstByte(s, off, t[0]);
    if w + |t| > |s| || Occurs(s, t, w) then None else HandsOver(s, t, off, w + |t|, Collisions(0, 0))
  }

  /* ---- when the fast search hands over, by counting false windows ---- */

  function Total(p: seq<byte>): nat {
    if p == [] then 0 else Total(p[..|p| - 1]) + p[|p| - 1]
  }

  /** The window that ends at `x` has the target's byte total, the first byte left out, and is no occurrence. */
  predicate FalseEnd(s: seq<byte>, t: seq<byte>, x: nat)
    requires t != []
  {
    |t| <= x <= |s| && Total(s[x - |t| + 1..x]) % 0x1_0000_0000 == Total(t[1..]) % 0x1_0000_0000
    && !Occurs(s, t, x - |t|)
  }

  /** The ends of such windows above `lo`, up to `hi`. */
  function FalseEnds(s: seq<byte>, t: seq<byte>, lo: nat, hi: nat): seq<nat>
    requires t != []
  {
    if hi <= lo then [] else FalseEnds(s, t, lo, hi - 1) + if FalseEnd(s, t, hi) then [hi] else []
  }

  /** How many of them are too many. */
  function Limit(t: seq<byte>): nat {
    3 + |t| / 2
  }

  /** The first ones become too many before they have gone ten target lengths; the first is taken as that much nearer to
      the front as the search has started behind it. */
  predicate Crowded(ends: seq<nat>, t: seq<byte>, off: nat) {
    |ends| >= Limit(t) && ends[Limit(t) - 1] + off - ends[0] <= 10 * |t|
  }

  lemma {:induction false} SumIsTotal(p: seq<byte>, lo: nat, hi: nat)
    requires 1 <= lo <= hi <= |p|
    ensures Sum(true, p, lo, hi) == Total(p[lo..hi])
    decreases hi
  {
    if lo < hi {
      SumIsTotal(p, lo, hi - 1);
      assert p[lo..hi][..hi - lo - 1] == p[lo..hi - 1];
    }
  }

  lemma WindowIsTotal(s: seq<byte>, t: seq<byte>, x: nat)
    requires t != [] && |t| <= x <= |s|
    ensures FalseEnd(s, t, x) <==>
              Window(true, s, x - |t|, |t|) == Window(true, t, 0, |t|) && !Occurs(s, t, x - |t|)
  {
    SumIsTotal(s, x - |t| + 1, x);
    SumIsTotal(t, 1, |t|);
    assert t[1..|t|] == t[1..];
  }

  lemma {:induction false} EndsRise(s: seq<byte>, t: seq<byte>, lo: nat, hi: nat)
    requires t != []
    ensures forall i :: 0 <= i < |FalseEnds(s, t, lo, hi)| ==> lo < FalseEnds(s, t, lo, hi)[i] <= hi
    ensures forall i, j :: 0 <= i < j < |FalseEnds(s, t, lo, hi)| ==>
                             FalseEnds(s, t, lo, hi)[i] < FalseEnds(s, t, lo, hi)[j]
  {
    hide FalseEnd;
    if hi > lo {
      EndsRise(s, t, lo, hi - 1);
    }
  }

  lemma {:induction false} EndsGrow(s: seq<byte>, t: seq<byte>, lo: nat, hi: nat, more: nat)
    requires t != [] && hi <= more
    ensures FalseEnds(s, t, lo, hi) <= FalseEnds(s, t, lo, more)
    decreases more
  {
    hide FalseEnd;
    if hi < more && lo < more {
      EndsGrow(s, t, lo, hi, more - 1);
    }
  }

  /** The counter `c` after the false windows `ends`: `c.count` of them are its own, and unless these are all of them
      the first ones have gone too far. */
  ghost predicate Counted(c: Collisions, ends: seq<nat>, t: seq<byte>, off: nat) {
    c.count <= |ends| && c.count < Limit(t) && (c.count == 0 <==> ends == []) && (c.off == 0 <==> ends == [])
    && (ends != [] ==> c.off == if c.count == |ends| then ends[0] - off else ends[|ends| - c.count])
    && (c.count < |ends| ==>
      exists j :: 0 <= j < |ends| && j < Limit(t) && ends[j] + off - ends[0] > 10 * |t|)
  }

  predicate Rising(ends: seq<nat>, off: nat) {
    (forall i :: 0 <= i < |ends| ==> off < ends[i]) && forall i, j :: 0 <= i < j < |ends| ==> ends[i] < ends[j]
  }

  lemma CollideCounts(c: Collisions, ends: seq<nat>, t: seq<byte>, off: nat, e: nat)
    requires off < e && Counted(c, ends, t, off) && Rising(ends + [e], off)
    ensures var (c', many) := Collide(c, e, off, |t|);
            var more := ends + [e];
            if many then |more| >= Limit(t) && e - more[|more| - Limit(t)] <= 10 * |t| else Counted(c', more, t, off)
  {
    var (c', many) := Collide(c, e, off, |t|);
    var more := ends + [e];
    assert more[|ends|] == e;
    if ends != [] {
      assert more[0] == ends[0];
      var a := |ends| - c.count;
      assert more[a] == ends[a];
      if c.count < |ends| {
        var j :| 0 <= j < |ends| && j < Limit(t) && ends[j] + off - ends[0] > 10 * |t|;
        assert more[j] == ends[j];
      } else if e - c.off > |t| * 10 {
        assert more[|ends|] + off - more[0] > 10 * |t|;
      }
    }
  }

  lemma CountedNotCrowded(c: Collisions, ends: seq<nat>, t: seq<byte>, off: nat)
    requires Counted(c, ends, t, off) && Rising(ends, off)
    ensures !Crowded(ends, t, off)
  {
    if c.count < |ends| && |ends| >= Limit(t) {
      var j :| 0 <= j < |ends| && j < Limit(t) && ends[j] + off - ends[0] > 10 * |t|;
      assert ends[j] <= ends[Limit(t) - 1];
    }
  }

  /** No occurrence from `off` on ends by `x`. */
  ghost predicate Unfound(s: seq<byte>, t: seq<byte>, off: nat, x: nat) {
    forall p: nat :: off <= p && p + |t| <= x ==> !Occurs(s, t, p)
  }

  /** What the hand-over place tells about the false windows, and what its absence tells. */
  ghost predicate HandOverTells(s: seq<byte>, t: seq<byte>, off: nat, lo: nat, e: nat, h: Option<nat>)
    requires t != []
  {
    (h.Some? ==>
      var ends := FalseEnds(s, t, lo, h.value);
      e < h.value <= |s| && |ends| >= Limit(t) && ends[|ends| - 1] == h.value
      && h.value - ends[|ends| - Limit(t)] <= 10 * |t|)
    && forall x :: e <= x <= |s| && (h.Some? ==> x < h.value) && Unfound(s, t, off, x) ==>
                     !Crowded(FalseEnds(s, t, lo, x), t, off)
  }

  lemma {:induction false} HandOverCounts(s: seq<byte>, t: seq<byte>, off: nat, lo: nat, e: nat, c: Collisions)
    requires t != [] && off + |t| <= lo <= e <= |s| && Counted(c, FalseEnds(s, t, lo, e), t, off)
    ensures HandOverTells(s, t, off, lo, e, HandsOver(s, t, off, e, c))
    decreases |s| - e
  {
    hide Collide, Counted, Crowded, FalseEnd, FalseEnds, HandOverTells, HandsOver, Limit, Occurs, Rising, Unfound,
         Window;
    EndsStep(s, t, off, lo, e);
    CountedNotCrowded(c, FalseEnds(s, t, lo, e), t, off);
    if e == |s| {
      TellsAtEnd(s, t, off, lo, c);
    } else {
      var x := e + 1;
      WindowIsTotal(s, t, x);
      HandsOverStep(s, t, off, e, c, Window(true, s, x - |t|, |t|));
      if Window(true, s, x - |t|, |t|) != Window(true, t, 0, |t|) {
        HandOverCounts(s, t, off, lo, x, c);
        TellsBefore(s, t, off, lo, e, HandsOver(s, t, off, x, c));
      } else if Occurs(s, t, x - |t|) {
        TellsFound(s, t, off, lo, e);
      } else {
        CollideCounts(c, FalseEnds(s, t, lo, e), t, off, x);
        var (c', many) := Collide(c, x, off, |t|);
        if many {
          TellsMany(s, t, off, lo, e);
        } else {
          HandOverCounts(s, t, off, lo, x, c');
          TellsBefore(s, t, off, lo, e, HandsOver(s, t, off, x, c'));
        }
      }
    }
  }

  lemma EndsStep(s: seq<byte>, t: seq<byte>, off: nat, lo: nat, e: nat)
    requires t != [] && off <= lo <= e
    ensures var ends := FalseEnds(s, t, lo, e);
            Rising(ends, off) && Rising(ends + [e + 1], off)
            && FalseEnds(s, t, lo, e + 1) == if FalseEnd(s, t, e + 1) then ends + [e + 1] else ends
  {
    hide FalseEnd;
    EndsRise(s, t, lo, e);
    assert FalseEnds(s, t, lo, e) + [] == FalseEnds(s, t, lo, e);
  }

  lemma TellsAtEnd(s: seq<byte>, t: seq<byte>, off: nat, lo: nat, c: Collisions)
    requires t != [] && off + |t| <= lo <= |s| && !Crowded(FalseEnds(s, t, lo, |s|), t, off)
    ensures HandOverTells(s, t, off, lo, |s|, HandsOver(s, t, off, |s|, c))
  {
  }

  lemma TellsBefore(s: seq<byte>, t: seq<byte>, off: nat, lo: nat, e: nat, h: Option<nat>)
    requires t != [] && !Crowded(FalseEnds(s, t, lo, e), t, off) && HandOverTells(s, t, off, lo, e + 1, h)
    ensures HandOverTells(s, t, off, lo, e, h)
  {
    hide Crowded, FalseEnds, Limit, Unfound;
  }

  lemma TellsFound(s: seq<byte>, t: seq<byte>, off: nat, lo: nat, e: nat)
    requires t != [] && off + |t| <= e < |s| && Occurs(s, t, e + 1 - |t|) && !Crowded(FalseEnds(s, t, lo, e), t, off)
    ensures HandOverTells(s, t, off, lo, e, None)
  {
    hide Crowded, FalseEnds, Limit;
    forall x | e < x
      ensures !Unfound(s, t, off, x)
    {
      assert e + 1 - |t| + |t| <= x;
    }
  }

  lemma TellsMany(s: seq<byte>, t: seq<byte>, off: nat, lo: nat, e: nat)
    requires t != [] && lo <= e < |s| && !Crowded(FalseEnds(s, t, lo, e), t, off)
    requires var ends := FalseEnds(s, t, lo, e + 1);
             |ends| >= Limit(t) && ends[|ends| - 1] == e + 1 && e + 1 - ends[|ends| - Limit(t)] <= 10 * |t|
    ensures HandOverTells(s, t, off, lo, e, Some(e + 1))
  {
    hide Crowded, FalseEnds, Limit, Unfound;
  }

  lemma NoEndsYet(s: seq<byte>, t: seq<byte>, off: nat, lo: nat)
    requires t != []
    ensures Counted(Collisions(0, 0), FalseEnds(s, t, lo, lo), t, off)
  {
  }

  /** The fast search hands over only at a false window that is the last of too many close together, it does so when the
      first ones are, and never when there are fewer. */
  lemma SwitchesWhen(s: seq<byte>, t: seq<byte>, off: nat)
    requires t != [] && off <= |s|
    ensures var lo := FirstByte(s, off, t[0]) + |t|;
            HandOverTells(s, t, off, lo, lo, Switches(s, t, off))
            && (|FalseEnds(s, t, lo, |s|)| < Limit(t) ==> Switches(s, t, off).None?)
  {
    hide Counted, Crowded, FalseEnds, HandsOver, Occurs, Limit;
    var w := FirstByte(s, off, t[0]);
    var lo := w + |t|;
    if lo <= |s| {
      if Occurs(s, t, w) {
        assert forall x :: lo <= x ==> !Unfound(s, t, off, x);
      } else {
        NoEndsYet(s, t, off, lo);
        HandOverCounts(s, t, off, lo, lo, Collisions(0, 0));
        if Switches(s, t, off).Some? {
          EndsGrow(s, t, lo, Switches(s, t, off).value, |s|);
        }
      }
    }
  }

  /** Searches from `off` on with the fast checksum, handing over to the slow one when checksums keep colliding. The
      answer is the first occurrence exactly when there is no hand-over or nothing straddles its place. */
  method FindCsumFast(s0: array<byte>, off: nat, t: array<byte>) returns (r: Option<nat>, ghost switched: Option<nat>)
    requires off <= s0.Length && t.Length >= 1
    ensures r.Some? ==> off <= r.value && Occurs(s0[..], t[..], r.value)
    ensures match switched
            case None => FirstFrom(s0[..], t[..], off, r)
            case Some(h) => HandedOver(s0[..], t[..], off, h, r)
    ensures FirstFrom(s0[..], t[..], off, r) <==>
              switched.None? || NoneIn(s0[..], t[..], switched.value - t.Length + 1, switched.value)
    ensures switched == Switches(s0[..], t[..], off)
    ensures var lo := FirstByte(s0[..], off, t[0]) + t.Length;
            HandOverTells(s0[..], t[..], off, lo, lo, switched)
            && (|FalseEnds(s0[..], t[..], lo, s0.Length)| < 3 + t.Length / 2 ==> switched.None?)
  {
    hide Behind, Collide, FalseEnds, FirstFrom, HandOverTells, HandsOver, NoneIn, Occurs, Scanning, Window;
    ghost var src, pat := s0[..], t[..];
    SwitchesWhen(src, pat, off);
    var ss, ts := s0.Length, t.Length;
    switched := None;
    var first := Memchr(s0, off, t[0]);
    ghost var w := FirstByte(src, off, pat[0]);
    assert w == if first.Some? then first.value else ss;
    SkippedAhead(src, pat, off, if first.Some? then first.value else ss);
    if first.None? || ss - first.value < ts {
      NotThere(src, pat, off, if first.Some? then first.value else ss + 1);
      r := None;
      return;
    }
    var s := first.value;
    var target, current := Prepare(true, s0, s, t);
    StartScan(true, src, pat, off, s);
    if Occurs(src, pat, s) {
      OccursSameWindow(true, src, pat, s);
    }
    if current == target && Occurs(s0[..], t[..], s) {
      FoundFirst(src, pat, off, s);
      r := Some(s);
      return;
    }
    s := s + ts;
    RuledOutAt(true, src, pat, off, s, target, current);
    var hit, many, c := false, false, Collisions(0, 0);
    assert Switches(src, pat, off) == HandsOver(src, pat, off, s, c);
    while s <= ss - 1
      invariant off + ts <= s <= ss && Behind(true, src, pat, off, s, target, current)
      invariant Switches(src, pat, off) == HandsOver(src, pat, off, s, c)
      decreases ss - s
    {
      s, current, hit := Advance(true, s0, t, off, s, if s + 16 <= ss - 1 then 16 else 1, target, current, c);
      if hit {
        ScanningWindow(true, src, pat, off, s - ts, target, current);
        HandsOverStep(src, pat, off, s - 1, c, current);
        if Occurs(s0[..], t[..], s - ts) {
          FoundScanning(true, src, pat, off, s - ts, target, current);
          r := Some(s - ts);
          return;
        }
        RuledOutAt(true, src, pat, off, s, target, current);
        var next := Collide(c, s, off, ts);
        c, many := next.0, next.1;
        if many {
          r := FindCsumSlow(s0, s, t);
          HandOver(true, src, pat, off, s, target, current, r);
          FirstDespiteHandOver(src, pat, off, s, r);
          switched := Some(s);
          return;
        }
      }
    }
    BehindAll(true, src, pat, off, s, target, current);
    NoMoreWindows(src, pat, off, c);
    r := None;
  }

  lemma NoMoreWindows(s: seq<byte>, t: seq<byte>, off: nat, c: Collisions)
    requires t != [] && off + |t| <= |s|
    ensures HandsOver(s, t, off, |s|, c) == None
  {
  }

  lemma ScanningWindow(fast: bool, s: seq<byte>, t: seq<byte>, off: nat, w: nat, target: nat, current: nat)
    requires Scanning(fast, s, t, off, w, target, current)
    ensures w + |t| <= |s| && t != [] && target == Window(fast, t, 0, |t|) && current == Window(fast, s, w, |t|)
  {
  }

  lemma HandOver(fast: bool, s: seq<byte>, t: seq<byte>, off: nat, e: nat, target: nat, current: nat, r: Option<nat>)
    requires Behind(fast, s, t, off, e, target, current) && FirstFrom(s, t, e, r)
    ensures HandedOver(s, t, off, e, r)
  {
  }

  lemma NotThere(s: seq<byte>, t: seq<byte>, off: nat, w: nat)
    requires t != [] && NoneIn(s, t, off, if w < |s| then w else |s| + 1) && w + |t| > |s|
    ensures FirstFrom(s, t, off, None)
  {
  }

  lemma StartScan(fast: bool, s: seq<byte>, t: seq<byte>, off: nat, w: nat)
    requires t != [] && off <= w && w + |t| <= |s| && NoneIn(s, t, off, w)
    ensures Scanning(fast, s, t, off, w, Window(fast, t, 0, |t|), Window(fast, s, w, |t|))
  {
  }

  lemma FoundFirst(s: seq<byte>, t: seq<byte>, off: nat, w: nat)
    requires off <= w && NoneIn(s, t, off, w) && Occurs(s, t, w)
    ensures FirstFrom(s, t, off, Some(w))
  {
  }

  lemma FoundScanning(fast: bool, s: seq<byte>, t: seq<byte>, off: nat, w: nat, target: nat, current: nat)
    requires Scanning(fast, s, t, off, w, target, current) && Occurs(s, t, w)
    ensures off <= w && FirstFrom(s, t, off, Some(w))
  {
  }

  lemma BehindAll(fast: bool, s: seq<byte>, t: seq<byte>, off: nat, e: nat, target: nat, current: nat)
    requires Behind(fast, s, t, off, e, target, current) && e >= |s|
    ensures FirstFrom(s, t, off, None)
  {
    ScannedAll(s, t, off, e - |t| + 1);
  }

  /* ---- a search that misses ---- */

  /** "bxbxbxbxbb" and "bb": the fourth collision ends one byte into the only occurrence. */
  const TEXT: seq<byte> := [98, 120, 98, 120, 98, 120, 98, 120, 98, 98]
  const TWICE: seq<byte> := [98, 98]

  /** The fast checksum of a window of two bytes is its second byte. */
  lemma TwoBytes(s: seq<byte>, w: nat)
    requires w + 2 <= |s|
    ensures Window(true, s, w, 2) == s[w + 1]
  {
    assert Sum(true, s, w + 1, w + 1) == 0;
  }

  lemma TextStep(e: nat, c: Collisions)
    requires 2 <= e < 9
    ensures var r := Collide(c, e + 1, 0, 2);
            HandsOver(TEXT, TWICE, 0, e, c)
            == if e % 2 == 1 then HandsOver(TEXT, TWICE, 0, e + 1, c)
               else if r.1 then Some(e + 1) else HandsOver(TEXT, TWICE, 0, e + 1, r.0)
  {
    hide HandsOver, Window, Collide;
    TwoBytes(TEXT, e - 1);
    TwoBytes(TWICE, 0);
    HandsOverStep(TEXT, TWICE, 0, e, c, TEXT[e] as nat);
    assert TEXT[e - 1..e + 1][0] == TEXT[e - 1];
    assert e % 2 == 0 ==> TEXT[e - 1] == 120;
    assert e % 2 == 1 ==> TEXT[e] == 120;
  }

  /** The fast search answers that there is no occurrence although there is one: it hands over inside it. */
  lemma FastSearchMisses()
    ensures Switches(TEXT, TWICE, 0) == Some(9) && Occurs(TEXT, TWICE, 8)
    ensures forall r :: HandedOver(TEXT, TWICE, 0, 9, r) ==> r == None
  {
    assert FirstByte(TEXT, 0, 98) == 0;
    assert TEXT[0..2][1] == 120;
    assert Switches(TEXT, TWICE, 0) == HandsOver(TEXT, TWICE, 0, 2, Collisions(0, 0));
    TextStep(2, Collisions(0, 0));
    TextStep(3, Collisions(3, 1));
    TextStep(4, Collisions(3, 1));
    TextStep(5, Collisions(3, 2));
    TextStep(6, Collisions(3, 2));
    TextStep(7, Collisions(3, 3));
    TextStep(8, Collisions(3, 3));
    assert TEXT[8..10] == TWICE;
  }
}
