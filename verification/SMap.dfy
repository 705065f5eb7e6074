/** In-order enumeration of a key range with an explicit stack (the template behind the sm_itr_* functions). */
module SMap {
  import opened Bits
  import opened RbDelete
  import opened RbHeight
  import opened RbModel
  import opened Sequences
  import opened STree
  import opened TreeArray
  import opened TreeMap
  import opened Wrappers

  datatype ScanState = ScanStart | ScanLeft | ScanRight | ScanDone

  /** A stack entry: parent, current node, state. */
  datatype Level = Level(p: nat, c: nat, s: ScanState)

  /** The caller's callback with its context: told all pairs handed over so far (the current one last), it says whether
      to go on. */
  type Callback = seq<(int, int)> -> bool

  function Cmp(a: int, b: int): (r: int)
    ensures (r > 0 <==> a > b) && (r < 0 <==> a < b)
  {
    if a > b then 1 else if a < b then -1 else 0
  }

  /** The pairs of the range, in ascending order of keys. */
  function InRange(s: seq<(int, int)>, lo: int, hi: int): seq<(int, int)> {
    if s == [] then []
    else (if lo <= s[0].0 <= hi then [s[0]] else []) + InRange(s[1..], lo, hi)
  }

  lemma {:induction false} InRangeConcat(a: seq<(int, int)>, b: seq<(int, int)>, lo: int, hi: int)
    ensures InRange(a + b, lo, hi) == InRange(a, lo, hi) + InRange(b, lo, hi)
  {
    if a == [] {
      assert a + b == b;
    } else {
      assert (a + b)[1..] == a[1..] + b;
      InRangeConcat(a[1..], b, lo, hi);
    }
  }

  lemma {:induction false} OutOfRange(s: seq<Entry>, lo: int, hi: int)
    requires Below(s, lo) || Above(s, hi)
    ensures InRange(Pairs(s), lo, hi) == []
  {
    if s != [] {
      OutOfRange(s[1..], lo, hi);
    }
  }

  predicate Ascending(p: seq<(int, int)>) {
    forall i, j :: 0 <= i < j < |p| ==> p[i].0 < p[j].0
  }

  lemma {:induction false} RangeExact(s: seq<Entry>, lo: int, hi: int)
    requires Sorted(s)
    ensures Ascending(InRange(Pairs(s), lo, hi))
    ensures forall p :: p in InRange(Pairs(s), lo, hi) <==>
                        lo <= p.0 <= hi && p.0 in Dict(Pairs(s)) && Dict(Pairs(s))[p.0] == p.1
  {
    if s != [] {
      SortedTail(s);
      RangeExact(s[1..], lo, hi);
      var r := InRange(Pairs(s[1..]), lo, hi);
      forall p | p in r
        ensures s[0].k < p.0
      {
        DictKeys(s[1..], p.0);
      }
      DictKeys(s[1..], s[0].k);
      assert InRange(Pairs(s), lo, hi) == (if lo <= s[0].k <= hi then [(s[0].k, s[0].v)] else []) + r;
    }
  }

  function Wanted(t: Tree, lo: int, hi: int): seq<(int, int)> {
    InRange(Pairs(Ent(t)), lo, hi)
  }

  /** Exactly the entries of the map whose key is in range, in ascending order. */
  lemma WantedExact(t: Tree, lo: int, hi: int)
    requires Sorted(Ent(t))
    ensures Ascending(Wanted(t, lo, hi))
    ensures forall p :: p in Wanted(t, lo, hi) <==>
                        lo <= p.0 <= hi && p.0 in Contents(t) && Contents(t)[p.0] == p.1
  {
    RangeExact(Ent(t), lo, hi);
  }

  function Self(t: Tree, lo: int, hi: int): seq<(int, int)>
    requires t.Node?
  {
    if lo <= t.k <= hi then [(t.k, t.v)] else []
  }

  lemma WantedNode(t: Tree, lo: int, hi: int)
    requires t.Node?
    ensures Wanted(t, lo, hi) == Wanted(t.l, lo, hi) + Self(t, lo, hi) + Wanted(t.r, lo, hi)
    ensures |Ent(t)| == |Ent(t.l)| + 1 + |Ent(t.r)|
  {
    var e := [(t.k, t.v)];
    PairsAround(Ent(t.l), Entry(t.x, t.k, t.v), Ent(t.r));
    InRangeConcat(Pairs(Ent(t.l)) + e, Pairs(Ent(t.r)), lo, hi);
    InRangeConcat(Pairs(Ent(t.l)), e, lo, hi);
    assert InRange(e, lo, hi) == Self(t, lo, hi);
  }

  /** Subtrees the scan may skip. */
  lemma Prune(t: Tree, lo: int, hi: int)
    requires t.Node? && Sorted(Ent(t))
    ensures t.k <= lo || t.l.Leaf? ==> Wanted(t.l, lo, hi) == []
    ensures t.k >= hi || t.r.Leaf? ==> Wanted(t.r, lo, hi) == []
  {
    NodeSorted(t);
    if t.k <= lo {
      OutOfRange(Ent(t.l), lo, hi);
    }
    if t.k >= hi {
      OutOfRange(Ent(t.r), lo, hi);
    }
  }

  /* ---- what a stack still has to deliver ---- */

  datatype Frame = Frame(t: Tree, s: ScanState)

  function Due(f: Frame, lo: int, hi: int): seq<(int, int)>
    requires f.t.Node?
  {
    match f.s
    case ScanStart => Wanted(f.t, lo, hi)
    case ScanLeft => Self(f.t, lo, hi) + Wanted(f.t.r, lo, hi)
    case _ => []
  }

  predicate Frames(st: seq<Frame>) {
    forall i :: 0 <= i < |st| ==> st[i].t.Node? && Sorted(Ent(st[i].t))
  }

  function Pending(st: seq<Frame>, lo: int, hi: int): seq<(int, int)>
    requires Frames(st)
  {
    if st == [] then [] else Due(st[|st| - 1], lo, hi) + Pending(st[..|st| - 1], lo, hi)
  }

  /** Work left: bounds the number of rounds. */
  function Work(st: seq<Frame>): nat
    requires Frames(st)
  {
    if st == [] then 0
    else
      var f := st[|st| - 1];
      Work(st[..|st| - 1])
      + match f.s
        case ScanStart => 3 * |Ent(f.t)|
        case ScanLeft => 3 * |Ent(f.t.r)| + 2
        case _ => 1
  }

  lemma {:induction false} PendingTop(st: seq<Frame>, f: Frame, lo: int, hi: int)
    requires Frames(st) && f.t.Node? && Sorted(Ent(f.t))
    ensures Frames(st + [f]) && Pending(st + [f], lo, hi) == Due(f, lo, hi) + Pending(st, lo, hi)
    ensures Work(st + [f]) == Work(st) + match f.s
                                         case ScanStart => 3 * |Ent(f.t)|
                                         case ScanLeft => 3 * |Ent(f.t.r)| + 2
                                         case _ => 1
  {
    assert (st + [f])[..|st|] == st;
  }

  /** Going left first: nothing is delivered yet. */
  lemma {:induction false} GoLeft(st: seq<Frame>, t: Tree, lo: int, hi: int)
    requires Frames(st) && t.Node? && Sorted(Ent(t)) && t.l.Node?
    ensures var a, b := st + [Frame(t, ScanStart)], st + [Frame(t, ScanLeft)] + [Frame(t.l, ScanStart)];
            Frames(a) && Frames(b) && Pending(a, lo, hi) == Pending(b, lo, hi) && Work(b) < Work(a)
  {
    NodeSorted(t);
    WantedNode(t, lo, hi);
    PendingTop(st, Frame(t, ScanStart), lo, hi);
    PendingTop(st, Frame(t, ScanLeft), lo, hi);
    PendingTop(st + [Frame(t, ScanLeft)], Frame(t.l, ScanStart), lo, hi);
    Assoc(Wanted(t.l, lo, hi), Self(t, lo, hi), Wanted(t.r, lo, hi));
    Assoc(Wanted(t.l, lo, hi), Self(t, lo, hi) + Wanted(t.r, lo, hi), Pending(st, lo, hi));
  }

  predicate LeftDone(t: Tree, s: ScanState, lo: int) {
    t.Node? && Sorted(Ent(t)) && (s == ScanLeft || (s == ScanStart && (t.l.Leaf? || t.k <= lo)))
  }

  lemma DueHere(t: Tree, s: ScanState, lo: int, hi: int)
    requires LeftDone(t, s, lo)
    ensures Due(Frame(t, s), lo, hi) == Self(t, lo, hi) + Wanted(t.r, lo, hi)
  {
    WantedNode(t, lo, hi);
    Prune(t, lo, hi);
    if s == ScanStart {
      assert [] + Self(t, lo, hi) == Self(t, lo, hi);
    }
  }

  /** The node itself, then its right subtree ... */
  lemma {:induction false} GoRight(st: seq<Frame>, t: Tree, s: ScanState, lo: int, hi: int)
    requires Frames(st) && LeftDone(t, s, lo) && t.r.Node?
    ensures var a, b := st + [Frame(t, s)], st + [Frame(t, ScanRight)] + [Frame(t.r, ScanStart)];
            Frames(a) && Frames(b) && Work(b) < Work(a)
            && Pending(a, lo, hi) == Self(t, lo, hi) + Pending(b, lo, hi)
  {
    NodeSorted(t);
    WantedNode(t, lo, hi);
    DueHere(t, s, lo, hi);
    PendingTop(st, Frame(t, s), lo, hi);
    PendingTop(st, Frame(t, ScanRight), lo, hi);
    PendingTop(st + [Frame(t, ScanRight)], Frame(t.r, ScanStart), lo, hi);
    Assoc(Self(t, lo, hi), Wanted(t.r, lo, hi), Pending(st, lo, hi));
    assert [] + Pending(st, lo, hi) == Pending(st, lo, hi);
  }

  /** ... or the way back. */
  lemma {:induction false} GoBack(st: seq<Frame>, t: Tree, s: ScanState, lo: int, hi: int)
    requires Frames(st) && LeftDone(t, s, lo) && (t.r.Leaf? || t.k >= hi)
    ensures var a := st + [Frame(t, s)];
            Frames(a) && Work(st) < Work(a) && Pending(a, lo, hi) == Self(t, lo, hi) + Pending(st, lo, hi)
  {
    WantedNode(t, lo, hi);
    DueHere(t, s, lo, hi);
    Prune(t, lo, hi);
    PendingTop(st, Frame(t, s), lo, hi);
    assert Self(t, lo, hi) + [] == Self(t, lo, hi);
  }

  lemma {:induction false} GoUp(st: seq<Frame>, t: Tree, s: ScanState, lo: int, hi: int)
    requires Frames(st) && t.Node? && Sorted(Ent(t)) && s != ScanStart && s != ScanLeft
    ensures var a := st + [Frame(t, s)];
            Frames(a) && Work(st) < Work(a) && Pending(a, lo, hi) == Pending(st, lo, hi)
  {
    PendingTop(st, Frame(t, s), lo, hi);
    assert [] + Pending(st, lo, hi) == Pending(st, lo, hi);
  }

  /** A subtree that the array holds. */
  predicate Held(ns: seq<Nd>, t: Tree) {
    t.Node? && Sorted(Ent(t)) && Rep(ns, t)
  }

  lemma SonHeld(ns: seq<Nd>, t: Tree, d: Dir)
    requires Held(ns, t) && Child(t, d).Node?
    ensures Held(ns, Child(t, d))
  {
    NodeSorted(t);
  }

  /** Entry `i` of the array mirrors frame `i`. */
  predicate Mirrors(ns: seq<Nd>, p: seq<Level>, st: seq<Frame>) {
    |st| <= |p| && forall i :: 0 <= i < |st| ==> Held(ns, st[i].t) && p[i].c == st[i].t.x && p[i].s == st[i].s
  }

  lemma {:induction false} MirrorsFrames(ns: seq<Nd>, p: seq<Level>, st: seq<Frame>)
    requires Mirrors(ns, p, st)
    ensures Frames(st)
  {
  }

  lemma {:induction false} MirrorsPush(ns: seq<Nd>, p: seq<Level>, q: seq<Level>, st: seq<Frame>, t: Tree,
                                       s: ScanState, s': ScanState, d: Dir)
    requires t.Node? && Child(t, d).Node? && |st| + 1 < |p|
    requires Mirrors(ns, p, st + [Frame(t, s)])
    requires |q| == |p| && (forall i :: 0 <= i < |st| ==> q[i] == p[i])
    requires q[|st|].c == t.x && q[|st|].s == s' && q[|st| + 1].c == Child(t, d).x && q[|st| + 1].s == ScanStart
    ensures Mirrors(ns, q, st + [Frame(t, s')] + [Frame(Child(t, d), ScanStart)])
  {
    hide Held;
    var a, b := st + [Frame(t, s)], st + [Frame(t, s')] + [Frame(Child(t, d), ScanStart)];
    assert a[|st|] == Frame(t, s);
    assert forall i :: 0 <= i < |st| ==> a[i] == st[i] == b[i];
    SonHeld(ns, t, d);
  }

  /* ---- how deep the scan goes ---- */

  function Max(a: nat, b: nat): nat {
    if a > b then a else b
  }

  /** Levels of the subtree that a scan of [lo, hi] visits. */
  function Span(t: Tree, lo: int, hi: int): nat {
    if t.Leaf? then 0
    else 1 + Max(if t.k > lo then Span(t.l, lo, hi) else 0, if t.k < hi then Span(t.r, lo, hi) else 0)
  }

  /** Levels that a frame takes up from now on, its own included. */
  function Reach(f: Frame, lo: int, hi: int): nat
    requires f.t.Node?
  {
    match f.s
    case ScanStart => Span(f.t, lo, hi)
    case ScanLeft => 1 + if f.t.k < hi then Span(f.t.r, lo, hi) else 0
    case _ => 1
  }

  /** Levels that a stack takes up from now on. */
  function Depth(st: seq<Frame>, lo: int, hi: int): nat
    requires Frames(st)
  {
    if st == [] then 0 else Max(Depth(st[..|st| - 1], lo, hi), |st| - 1 + Reach(st[|st| - 1], lo, hi))
  }

  lemma {:induction false} DepthTop(st: seq<Frame>, f: Frame, lo: int, hi: int)
    requires Frames(st) && f.t.Node? && Sorted(Ent(f.t))
    ensures Frames(st + [f]) && Depth(st + [f], lo, hi) == Max(Depth(st, lo, hi), |st| + Reach(f, lo, hi))
  {
    assert (st + [f])[..|st|] == st;
  }

  /** A push to the left loses nothing of the depth still to come. */
  lemma {:induction false} DepthLeft(st: seq<Frame>, t: Tree, lo: int, hi: int)
    requires Frames(st) && t.Node? && Sorted(Ent(t)) && t.l.Node? && t.k > lo
    ensures var a, b := st + [Frame(t, ScanStart)], st + [Frame(t, ScanLeft)] + [Frame(t.l, ScanStart)];
            Frames(a) && Frames(b) && Depth(a, lo, hi) == Depth(b, lo, hi) >= |b|
  {
    NodeSorted(t);
    hide Frames, Sorted;
    DepthTop(st, Frame(t, ScanStart), lo, hi);
    DepthTop(st, Frame(t, ScanLeft), lo, hi);
    DepthTop(st + [Frame(t, ScanLeft)], Frame(t.l, ScanStart), lo, hi);
  }

  lemma {:induction false} ReachHere(t: Tree, s: ScanState, lo: int, hi: int)
    requires LeftDone(t, s, lo)
    ensures Reach(Frame(t, s), lo, hi) == 1 + if t.k < hi then Span(t.r, lo, hi) else 0
    ensures t.r.Leaf? ==> Span(t.r, lo, hi) == 0
  {
    assert t.l.Leaf? ==> Span(t.l, lo, hi) == 0;
  }

  /** Neither does the step that visits the node, beyond the level it stands on. */
  lemma {:induction false} DepthVisit(st: seq<Frame>, t: Tree, s: ScanState, lo: int, hi: int, right: bool)
    requires Frames(st) && LeftDone(t, s, lo) && right == (t.r.Node? && t.k < hi)
    ensures var a, b := st + [Frame(t, s)], Next(st, t, right);
            Frames(a) && Frames(b) && Max(|a|, Depth(a, lo, hi)) == Max(|a|, Depth(b, lo, hi))
            && (right ==> Depth(b, lo, hi) >= |b|)
  {
    NodeSorted(t);
    ReachHere(t, s, lo, hi);
    hide Frames, Sorted, Span;
    DepthTop(st, Frame(t, s), lo, hi);
    if right {
      DepthTop(st, Frame(t, ScanRight), lo, hi);
      DepthTop(st + [Frame(t, ScanRight)], Frame(t.r, ScanStart), lo, hi);
    }
  }

  lemma {:induction false} DepthUp(st: seq<Frame>, t: Tree, s: ScanState, lo: int, hi: int)
    requires Frames(st) && t.Node? && Sorted(Ent(t)) && s != ScanStart && s != ScanLeft
    ensures var a := st + [Frame(t, s)];
            Frames(a) && Max(|a|, Depth(a, lo, hi)) == Max(|a|, Depth(st, lo, hi))
  {
    DepthTop(st, Frame(t, s), lo, hi);
  }

  /** `deep` levels of the stack have been in use so far, all within its `room` entries, and the scan goes `span`
      levels deep on the whole. */
  predicate Tracked(st: seq<Frame>, deep: nat, room: nat, span: nat, lo: int, hi: int) {
    Frames(st) && |st| <= deep <= room && Max(deep, Depth(st, lo, hi)) == span
  }

  /** The scan needs the room that the next push takes. */
  lemma {:induction false} TrackPush(a: seq<Frame>, b: seq<Frame>, deep: nat, room: nat, span: nat, lo: int, hi: int)
    requires Tracked(a, deep, room, span, lo, hi) && Frames(b) && |b| == |a| + 1 && Depth(b, lo, hi) >= |b|
    requires Max(|a|, Depth(a, lo, hi)) == Max(|a|, Depth(b, lo, hi))
    ensures if |b| <= room then Tracked(b, Max(deep, |b|), room, span, lo, hi) else span > room
  {
    hide Depth, Frames;
  }

  lemma {:induction false} TrackPop(a: seq<Frame>, b: seq<Frame>, deep: nat, room: nat, span: nat, lo: int, hi: int)
    requires Tracked(a, deep, room, span, lo, hi) && Frames(b) && |b| < |a|
    requires Max(|a|, Depth(a, lo, hi)) == Max(|a|, Depth(b, lo, hi))
    ensures Tracked(b, deep, room, span, lo, hi)
  {
    hide Depth, Frames;
  }

  lemma {:induction false} TrackVisit(st: seq<Frame>, t: Tree, s: ScanState, lo: int, hi: int, right: bool,
                                      deep: nat, room: nat, span: nat)
    requires Tracked(st + [Frame(t, s)], deep, room, span, lo, hi) && Frames(st) && LeftDone(t, s, lo)
    requires right == (t.r.Node? && t.k < hi)
    ensures var b := Next(st, t, right);
            if |b| <= room then Tracked(b, Max(deep, |b|), room, span, lo, hi) else span > room
  {
    hide Tracked, Depth, Frames;
    DepthVisit(st, t, s, lo, hi, right);
    if right {
      TrackPush(st + [Frame(t, s)], Next(st, t, right), deep, room, span, lo, hi);
    } else {
      TrackPop(st + [Frame(t, s)], Next(st, t, right), deep, room, span, lo, hi);
      TrackedRoom(st, deep, room, span, lo, hi);
    }
  }

  lemma {:induction false} TrackedRoom(st: seq<Frame>, deep: nat, room: nat, span: nat, lo: int, hi: int)
    requires Tracked(st, deep, room, span, lo, hi)
    ensures Frames(st) && |st| <= deep <= room
  {
  }

  lemma {:induction false} TrackLeft(st: seq<Frame>, t: Tree, lo: int, hi: int, deep: nat, room: nat, span: nat)
    requires Tracked(st + [Frame(t, ScanStart)], deep, room, span, lo, hi) && Frames(st)
    requires t.Node? && Sorted(Ent(t)) && t.l.Node? && t.k > lo
    ensures var b := st + [Frame(t, ScanLeft)] + [Frame(t.l, ScanStart)];
            if |b| <= room then Tracked(b, Max(deep, |b|), room, span, lo, hi) else span > room
  {
    DepthLeft(st, t, lo, hi);
    var b := st + [Frame(t, ScanLeft)] + [Frame(t.l, ScanStart)];
    TrackPush(st + [Frame(t, ScanStart)], b, deep, room, span, lo, hi);
  }

  lemma {:induction false} TrackUp(st: seq<Frame>, t: Tree, s: ScanState, lo: int, hi: int, deep: nat, room: nat,
                                   span: nat)
    requires Tracked(st + [Frame(t, s)], deep, room, span, lo, hi) && Frames(st)
    requires t.Node? && Sorted(Ent(t)) && s != ScanStart && s != ScanLeft
    ensures Tracked(st, deep, room, span, lo, hi)
  {
    DepthUp(st, t, s, lo, hi);
    TrackPop(st + [Frame(t, s)], st, deep, room, span, lo, hi);
  }

  lemma {:induction false} TrackEnd(deep: nat, room: nat, span: nat, lo: int, hi: int)
    requires Tracked([], deep, room, span, lo, hi)
    ensures span <= room
  {
  }

  lemma {:induction false} SpanAtMost(t: Tree, lo: int, hi: int)
    ensures Span(t, lo, hi) <= Height(t)
  {
    if t.Node? {
      SpanAtMost(t.l, lo, hi);
      SpanAtMost(t.r, lo, hi);
    }
  }

  /** Bounds around all keys lead to the deepest level. */
  lemma {:induction false} SpanOfAll(t: Tree, lo: int, hi: int)
    requires Sorted(Ent(t)) && forall i :: 0 <= i < |Ent(t)| ==> lo <= Ent(t)[i].k <= hi
    ensures Span(t, lo, hi) == Height(t)
  {
    if t.Node? {
      var s, n := Ent(t), |Ent(t.l)|;
      NodeSorted(t);
      assert s[n] == Entry(t.x, t.k, t.v);
      assert forall i :: 0 <= i < n ==> Ent(t.l)[i] == s[i];
      assert forall i :: 0 <= i < |Ent(t.r)| ==> Ent(t.r)[i] == s[n + 1 + i];
      SpanOfAll(t.l, lo, hi);
      SpanOfAll(t.r, lo, hi);
      if t.l.Node? {
        assert Ent(t.l)[|Ent(t.l.l)|].k == t.l.k;
      }
      if t.r.Node? {
        assert Ent(t.r)[|Ent(t.r.l)|].k == t.r.k;
      }
    }
  }

  /** A stack of `room` entries is enough for all bounds exactly when the tree has no more levels than that. */
  lemma {:induction false} RoomForAllBounds(t: Tree, room: nat)
    requires Sorted(Ent(t))
    ensures (forall lo, hi :: Span(t, lo, hi) <= room) <==> Height(t) <= room
  {
    forall lo, hi
      ensures Span(t, lo, hi) <= Height(t)
    {
      SpanAtMost(t, lo, hi);
    }
    if t.Node? {
      var s := Ent(t);
      SpanOfAll(t, s[0].k, s[|s| - 1].k);
    }
  }

  /** Entries of the stack for a tree of `n` nodes. */
  function StackSize(n: nat): nat
    requires n > 0
  {
    2 * (Log2(n) + 1) + 3
  }

  /** It is enough for a red-black tree, with three to spare. */
  lemma {:induction false} RedBlackFits(t: Tree)
    requires Weak(t) && t.Node?
    ensures |Ent(t)| > 0 && Height(t) + 3 <= StackSize(|Ent(t)|)
  {
    HeightBound(t);
  }

  lemma NothingWanted(t: Tree, lo: int, hi: int)
    requires |Ent(t)| == 0
    ensures Wanted(t, lo, hi) == []
  {
  }

  /** `pending` is what is left of `all` after `n`. */
  predicate Rest(all: seq<(int, int)>, n: nat, pending: seq<(int, int)>) {
    n <= |all| && all[n..] == pending
  }

  lemma Deliver(all: seq<(int, int)>, n: nat, t: Tree, lo: int, hi: int, pending: seq<(int, int)>)
    requires t.Node? && Rest(all, n, Self(t, lo, hi) + pending)
    ensures Rest(all, n + |Self(t, lo, hi)|, pending)
    ensures lo <= t.k <= hi ==> n < |all| && all[..n + 1] == all[..n] + [(t.k, t.v)]
  {
    var m := n + |Self(t, lo, hi)|;
    assert all[m..] == all[n..][|Self(t, lo, hi)|..];
    if lo <= t.k <= hi {
      assert all[n..][0] == (t.k, t.v);
    }
  }

  lemma {:induction false} Finished(all: seq<(int, int)>, n: nat, st: seq<Frame>, lo: int, hi: int)
    requires st == [] && Rest(all, n, Pending(st, lo, hi))
    ensures n == |all| && all[..n] == all
  {
  }

  function Next(st: seq<Frame>, t: Tree, right: bool): seq<Frame>
    requires t.Node?
  {
    if right then st + [Frame(t, ScanRight)] + [Frame(t.r, ScanStart)] else st
  }

  lemma {:induction false} NextFrames(st: seq<Frame>, t: Tree, right: bool)
    requires t.Node?
    ensures Next(st, t, right) == if right then st + [Frame(t, ScanRight)] + [Frame(t.r, ScanStart)] else st
  {
  }

  lemma {:induction false} Visit(all: seq<(int, int)>, n: nat, st: seq<Frame>, t: Tree, s: ScanState, lo: int,
                                 hi: int, right: bool)
    requires Frames(st) && LeftDone(t, s, lo) && (if right then t.r.Node? else t.r.Leaf? || t.k >= hi)
    requires Frames(st + [Frame(t, s)]) && Rest(all, n, Pending(st + [Frame(t, s)], lo, hi))
    ensures var next := Next(st, t, right);
            Frames(next) && Work(next) < Work(st + [Frame(t, s)])
            && Rest(all, n + if lo <= t.k <= hi then 1 else 0, Pending(next, lo, hi))
    ensures lo <= t.k <= hi ==> n < |all| && all[..n + 1] == all[..n] + [(t.k, t.v)]
  {
    if right {
      GoRight(st, t, s, lo, hi);
    } else {
      GoBack(st, t, s, lo, hi);
    }
    Deliver(all, n, t, lo, hi, Pending(Next(st, t, right), lo, hi));
  }

  lemma {:induction false} MirrorsPop(ns: seq<Nd>, p: seq<Level>, q: seq<Level>, st: seq<Frame>, f: Frame)
    requires Mirrors(ns, p, st + [f]) && |q| == |p| && forall i :: 0 <= i < |st| ==> q[i] == p[i]
    ensures Mirrors(ns, q, st)
  {
    var a := st + [f];
    assert forall i :: 0 <= i < |st| ==> a[i] == st[i];
  }

  /** The stack of a fresh scan: the whole tree is due, and its whole span is to come. */
  lemma {:induction false} FreshScan(ns: seq<Nd>, root: nat, t: Tree, p: seq<Level>, lo: int, hi: int)
    requires RepZ(ns, root, Top, t) && t.Node? && Sorted(Ent(t))
    requires |p| > 0 && p[0].c == root && p[0].s == ScanStart
    ensures var st := [Frame(t, ScanStart)];
            Mirrors(ns, p, st) && Frames(st) && Rest(Wanted(t, lo, hi), 0, Pending(st, lo, hi))
            && Tracked(st, 1, |p|, Span(t, lo, hi), lo, hi)
  {
    hide Ent, Sorted, Wanted;
    var st := [Frame(t, ScanStart)];
    assert [] + st == st;
    PendingTop([], st[0], lo, hi);
    DepthTop([], st[0], lo, hi);
    assert Wanted(t, lo, hi) + [] == Wanted(t, lo, hi);
  }

  lemma {:induction false} TopLevel(ns: seq<Nd>, p: seq<Level>, st: seq<Frame>)
    requires Mirrors(ns, p, st) && st != []
    ensures var i := |st| - 1;
            st == st[..i] + [st[i]] && i < |p| && Held(ns, st[i].t)
            && st[i].t.Node? && p[i].c == st[i].t.x && p[i].s == st[i].s && Frames(st[..i])
  {
    MirrorsFrames(ns, p, st);
  }

  /** What the scan reads at the top of the stack. */
  lemma TopNode(ns: seq<Nd>, t: Tree)
    requires Held(ns, t) && |ns| <= NIL
    ensures t.Node? && Sorted(Ent(t)) && t.x < |ns| && ns[t.x].k == t.k && ns[t.x].v == t.v
    ensures (ns[t.x].l != NIL <==> t.l.Node?) && (ns[t.x].r != NIL <==> t.r.Node?)
    ensures t.l.Node? ==> ns[t.x].l == t.l.x
    ensures t.r.Node? ==> ns[t.x].r == t.r.x
  {
    assert Rep(ns, t.l) && Rep(ns, t.r);
  }

  /** Records where to go on in the current node and moves to its son `c`. */
  method Descend(p: array<Level>, level: nat, s: ScanState, c: nat,
                 ghost ns: seq<Nd>, ghost st: seq<Frame>, ghost t: Tree, ghost from: ScanState, ghost d: Dir)
    requires level == |st| && level + 1 < p.Length && t.Node? && Child(t, d).Node? && c == Child(t, d).x
    requires Mirrors(ns, p[..], st + [Frame(t, from)]) && p[level].c == t.x
    modifies p
    ensures p[..] == old(p[..])[level := old(p[level]).(s := s)][level + 1 := Level(t.x, c, ScanStart)]
    ensures Mirrors(ns, p[..], st + [Frame(t, s)] + [Frame(Child(t, d), ScanStart)])
  {
    hide Mirrors;
    p[level] := p[level].(s := s);
    p[level + 1] := Level(p[level].c, c, ScanStart);
    MirrorsPush(ns, old(p[..]), p[..], st, t, from, s, d);
  }

  /** Marks the current node as done. */
  method Ascend(p: array<Level>, level: nat, ghost ns: seq<Nd>, ghost st: seq<Frame>, ghost f: Frame)
    requires level == |st| < p.Length && Mirrors(ns, p[..], st + [f])
    modifies p
    ensures p[..] == old(p[..])[level := old(p[level]).(s := ScanDone)]
    ensures Mirrors(ns, p[..], st)
  {
    hide Mirrors;
    p[level] := p[level].(s := ScanDone);
    MirrorsPop(ns, old(p[..]), p[..], st, f);
  }

  /** Of the pairs `r` the callback let `n` pass, all unless it stopped the scan at the next one; `calls` are the pairs
      it was called on. */
  ghost predicate Outcome(r: seq<(int, int)>, f: Option<Callback>, n: nat, calls: seq<(int, int)>) {
    n <= |r| && (f.Some? ==> forall j :: 1 <= j <= n ==> f.value(r[..j]))
    && (f.None? ==> n == |r| && calls == [])
    && (f.Some? ==> if n == |r| then calls == r else calls == r[..n + 1] && !f.value(calls))
  }

  /** The loop of the scan over the stack `p`, whose first entry is the root. `inside` is false when it is about to
      push beyond the end of the stack; there it stops here. */
  method Scan(m: Tree32, p: array<Level>, kmin: int, kmax: int, f: Option<Callback>, ghost all: seq<(int, int)>)
    returns (nelems: nat, calls: seq<(int, int)>, inside: bool)
    requires |m.nodes| <= NIL && 0 < p.Length && Frames([Frame(m.tree, ScanStart)])
    requires Mirrors(m.nodes, p[..], [Frame(m.tree, ScanStart)])
    requires Rest(all, 0, Pending([Frame(m.tree, ScanStart)], kmin, kmax))
    requires Tracked([Frame(m.tree, ScanStart)], 1, p.Length, Span(m.tree, kmin, kmax), kmin, kmax)
    modifies p
    ensures inside ==> Outcome(all, f, nelems, calls) && (nelems == |all| ==> Span(m.tree, kmin, kmax) <= p.Length)
    ensures !inside ==> Span(m.tree, kmin, kmax) > p.Length
  {
    hide Due, Ent, Held, Frames, Max, Mirrors, Next, Pending, Rep, Rest, Self, Sorted, Span, Tracked, Wanted, Work;
    nelems, calls, inside := 0, [], true;
    var level: int := 0;
    ghost var st, deep, span := [Frame(m.tree, ScanStart)], 1, Span(m.tree, kmin, kmax);
    while level >= 0
      invariant level == |st| - 1 && Frames(st) && Mirrors(m.nodes, p[..], st)
      invariant Rest(all, nelems, Pending(st, kmin, kmax))
      invariant Tracked(st, deep, p.Length, span, kmin, kmax)
      invariant nelems <= |all|
      invariant calls == if f.Some? then all[..nelems] else []
      invariant forall j :: 1 <= j <= nelems && f.Some? ==> f.value(all[..j])
      decreases Work(st)
    {
      TopLevel(m.nodes, p[..], st);
      ghost var rest, t, s := st[..level], st[level].t, st[level].s;
      var cur := p[level];
      TopNode(m.nodes, t);
      var cn := m.nodes[cur.c];
      var cmpmin, cmpmax := Cmp(cn.k, kmin), Cmp(cn.k, kmax);
      if cur.s == ScanStart && cn.l != NIL && cmpmin > 0 {
        GoLeft(rest, t, kmin, kmax);
        TrackLeft(rest, t, kmin, kmax, deep, p.Length, span);
        if level + 1 == p.Length {
          inside := false;
          return;
        }
        Descend(p, level, ScanLeft, cn.l, m.nodes, rest, t, s, Left);
        level := level + 1;
        st := rest + [Frame(t, ScanLeft)] + [Frame(t.l, ScanStart)];
        deep := Max(deep, |st|);
      } else if cur.s == ScanStart || cur.s == ScanLeft {
        ghost var right := cn.r != NIL && cmpmax < 0;
        ghost var next := Next(rest, t, right);
        Visit(all, nelems, rest, t, s, kmin, kmax, right);
        TrackVisit(rest, t, s, kmin, kmax, right, deep, p.Length, span);
        if cmpmin >= 0 && cmpmax <= 0 {
          if f.Some? {
            calls := calls + [(cn.k, cn.v)];
            if !f.value(calls) {
              return;
            }
          }
          nelems := nelems + 1;
        }
        NextFrames(rest, t, cn.r != NIL && cmpmax < 0);
        if cn.r != NIL && cmpmax < 0 {
          if level + 1 == p.Length {
            inside := false;
            return;
          }
          Descend(p, level, ScanRight, cn.r, m.nodes, rest, t, s, Right);
          level := level + 1;
        } else {
          Ascend(p, level, m.nodes, rest, Frame(t, s));
          level := level - 1;
        }
        st := next;
        deep := Max(deep, |st|);
      } else {
        GoUp(rest, t, s, kmin, kmax);
        TrackUp(rest, t, s, kmin, kmax, deep, p.Length, span);
        Ascend(p, level, m.nodes, rest, Frame(t, s));
        level := level - 1;
        st := rest;
      }
    }
    Finished(all, nelems, st, kmin, kmax);
    TrackEnd(deep, p.Length, span, kmin, kmax);
  }

  /** Calls back on the keys of [kmin, kmax] in ascending order until the callback says stop; returns how many it let
      pass (all of them when there is no callback). `inside` tells whether the scan stays inside its stack; unless the
      callback stops it, it does so exactly when the levels it visits are no more than the stack's entries. */
  method Itr(m: Tree32, kmin: int, kmax: int, f: Option<Callback>)
    returns (nelems: nat, calls: seq<(int, int)>, inside: bool)
    requires m.Holds()
    ensures inside ==> Outcome(Wanted(m.tree, kmin, kmax), f, nelems, calls)
    ensures m.nodes == [] ==> inside
    ensures m.nodes != [] && Span(m.tree, kmin, kmax) <= StackSize(|m.nodes|) ==> inside
    ensures m.nodes != [] && inside && nelems == |Wanted(m.tree, kmin, kmax)| ==>
              Span(m.tree, kmin, kmax) <= StackSize(|m.nodes|)
    ensures m.Valid() ==> inside
  {
    nelems, calls, inside := 0, [], true;
    var ts := |m.nodes|;
    if ts == 0 {
      NothingWanted(m.tree, kmin, kmax);
      return;
    }
    var log2 := Slog2(ts);
    var depth := 2 * (log2 + 1);
    var p := new Level[depth + 3](_ => Level(NIL, NIL, ScanDone));
    p[0] := Level(NIL, m.root, ScanStart);
    FreshScan(m.nodes, m.root, m.tree, p[..], kmin, kmax);
    ghost var all := Wanted(m.tree, kmin, kmax);
    if Weak(m.tree) {
      RedBlackFits(m.tree);
      SpanAtMost(m.tree, kmin, kmax);
    }
    hide *;
    nelems, calls, inside := Scan(m, p, kmin, kmax, f, all);
  }
}
