/** Bridges from the walk on trees to the walk on the array, for insertion. */
module InsertSteps {
  import opened RbModel
  import opened RbInsert
  import opened TreeArray
  import opened TreeMap
  import opened TreeReading
  import opened Wrappers

  /** The subtree at the grandfather of a red node under a red father. */
  function Above2(c: Ctx, t: Tree): Tree
    requires c.Fr? && c.up.Fr?
  {
    Mk(c.up.d, c.up.x, c.up.red, c.up.k, c.up.v, Mk(c.d, c.x, c.red, c.k, c.v, t, c.sib), c.up.sib)
  }

  function Above1(c: Ctx, t: Tree): Tree
    requires c.Fr?
  {
    Mk(c.d, c.x, c.red, c.k, c.v, t, c.sib)
  }

  lemma Above2Rep(ns: seq<Nd>, root: nat, c: Ctx, t: Tree)
    requires c.Fr? && c.up.Fr? && RepZ(ns, root, c, t)
    ensures Rep(ns, Above2(c, t)) && RepC(ns, root, c.up.up, c.up.x)
  {
    UpRep(ns, root, c, t);
    UpRep(ns, root, c.up, Above1(c, t));
  }

  /** Walking up or down one level does not change what the array holds. */
  lemma UpRep(ns: seq<Nd>, root: nat, c: Ctx, t: Tree)
    requires c.Fr?
    ensures RepZ(ns, root, c, t) <==> RepZ(ns, root, c.up, Above1(c, t))
  {
    assert Idx(Above1(c, t)) == c.x;
  }

  lemma DownRep(ns: seq<Nd>, root: nat, c: Ctx, t: Tree, d: Dir)
    requires t.Node? && RepZ(ns, root, c, t)
    ensures RepZ(ns, root, Down(c, t, d), Child(t, d))
  {
    UpRep(ns, root, Down(c, t, d), Child(t, d));
  }

  lemma UpUses1(c: Ctx, t: Tree, i: nat)
    requires c.Fr?
    ensures CUses(c, i) + Uses(t, i) == CUses(c.up, i) + Uses(Above1(c, t), i)
  {
  }

  lemma Above2Uses(c: Ctx, t: Tree, i: nat)
    requires c.Fr? && c.up.Fr?
    ensures CUses(c, i) + Uses(t, i) == CUses(c.up.up, i) + Uses(Above2(c, t), i)
  {
    UpUses1(c, t, i);
    UpUses1(c.up, Above1(c, t), i);
  }

  lemma Above2Injective(c: Ctx, t: Tree, n: nat)
    requires c.Fr? && c.up.Fr? && Distinct(c, t, n)
    ensures Injective(Above2(c, t)) && Distinct(c.up.up, Above2(c, t), n)
  {
    forall i: nat
      ensures CUses(c.up.up, i) + Uses(Above2(c, t), i) == if i < n then 1 else 0
    {
      Above2Uses(c, t, i);
    }
  }

  /** What a rotation at the grandfather leaves in the array. */
  function FixedNodes(ns: seq<Nd>, c: Ctx, t: Tree): seq<Nd>
    requires c.Fr? && c.up.Fr? && Rep(ns, Above2(c, t)) && t.Node? && Injective(Above2(c, t))
  {
    var g := Above2(c, t);
    var d := Cd(c.up.d);
    if c.d == c.up.d then
      RotateRep(ns, g, d);
      Rotated(ns, g.x, d, Cd(d))
    else
      RotateChildRep(ns, g, d);
      RotateRep(RotatedChild(ns, g.x, d, Cd(d)), RotChildTree(g, d), d);
      Rotated(RotatedChild(ns, g.x, d, Cd(d)), g.x, d, Cd(d))
  }

  function FixedTree(c: Ctx, t: Tree): Tree
    requires c.Fr? && c.up.Fr? && t.Node?
  {
    var g := Above2(c, t);
    var d := Cd(c.up.d);
    if c.d == c.up.d then RotTree(g, d) else RotTree(RotChildTree(g, d), d)
  }

  /** The rotations are those of the walk on trees. */
  lemma FixIsRotation(c: Ctx, t: Tree)
    requires DoubleRed(c, t)
    ensures var f := Fix(c, t);
            if c.d == c.up.d then f.t == t && FixedTree(c, t) == Above1(f.c, t) && f.c.up == c.up.up
            else f.t == FixedTree(c, t) && f.c == c.up.up
  {
  }

  lemma FixedRep(ns: seq<Nd>, root: nat, c: Ctx, t: Tree, n: nat)
    requires DoubleRed(c, t) && RepZ(ns, root, c, t) && Distinct(c, t, n)
    ensures Rep(ns, Above2(c, t)) && Injective(Above2(c, t))
    ensures var ms := FixedNodes(ns, c, t);
            |ms| == |ns| && Rep(ms, FixedTree(c, t)) && RepC(ms, root, c.up.up, c.up.x)
  {
    Above2Rep(ns, root, c, t);
    Above2Injective(c, t, n);
    var g := Above2(c, t);
    var d := Cd(c.up.d);
    var ms := FixedNodes(ns, c, t);
    if c.d == c.up.d {
      RotateRep(ns, g, d);
    } else {
      RotateChildRep(ns, g, d);
      RotateRep(RotatedChild(ns, g.x, d, Cd(d)), RotChildTree(g, d), d);
    }
    forall j: nat | CUses(c.up.up, j) > 0
      ensures Agree(ns, ms, j)
    {
      assert Uses(g, j) == 0;
    }
    RepCFrame(ns, ms, root, c.up.up, c.up.x);
  }

  /** After the rotation and the new link from above, the array holds the fixed-up walk. */
  lemma FixRep(ns: seq<Nd>, root: nat, c: Ctx, t: Tree, n: nat)
    requires DoubleRed(c, t) && RepZ(ns, root, c, t) && Distinct(c, t, n)
    ensures Rep(ns, Above2(c, t)) && Injective(Above2(c, t))
    ensures var f := Fix(c, t);
            var up := c.up.up;
            var v := FixedTree(c, t).x;
            var ms := FixedNodes(ns, c, t);
            (up.Fr? ==> up.x < |ms|) && RepZ(Relinked(ms, up, v), if up.Fr? then root else v, f.c, f.t)
  {
    var up := c.up.up;
    var u := FixedTree(c, t);
    FixedRep(ns, root, c, t, n);
    Above2Injective(c, t, n);
    var ms := FixedNodes(ns, c, t);
    FixIsRotation(c, t);
    if up.Fr? {
      UpUses(up, Above2(c, t), n);
    }
    RelinkRep(ms, root, up, c.up.x, u.x);
    if up.Fr? {
      FixedUses(c, t, up.x);
      RepSet(ms, u, up.x, WithLr(ms[up.x], up.d, u.x));
    }
  }

  /** After the rotation and the link from a stale slot the array holds too little. */
  lemma FixStale(ns: seq<Nd>, root: nat, c: Ctx, t: Tree, e: Win, d2: Dir, n: nat)
    requires DoubleRed(c, t) && RepZ(ns, root, c, t) && Distinct(c, t, n) && n == |ns| <= NIL && StaleEntry(e, c)
    ensures Rep(ns, Above2(c, t)) && Injective(Above2(c, t))
    ensures var f := Fix(c, t);
            var v := FixedTree(c, t).x;
            var ms := FixedNodes(ns, c, t);
            e.x < |ms| && Shrunk(ms[e.x := WithLr(ms[e.x], d2, v)], if c.up.up.Fr? then root else v,
                                 |Ent(Fill(f.c, f.t))|)
  {
    FixedRep(ns, root, c, t, n);
    FixedDistinct(c, t, n);
    FixedShape(c, t, e);
    hide Fix, Shrunk;
    StaleBreaks(FixedNodes(ns, c, t), root, c.up.up, FixedTree(c, t), c.up.d, e.x, d2, n);
  }

  /** What the code reads before and after the rotation. */
  lemma FixCells(ns: seq<Nd>, root: nat, c: Ctx, t: Tree, n: nat)
    requires DoubleRed(c, t) && RepZ(ns, root, c, t) && Distinct(c, t, n) && n == |ns| <= NIL
    ensures c.x < |ns| && c.up.x < |ns| && t.x < |ns| && (c.up.sib.Node? ==> c.up.sib.x < |ns|)
    ensures (Lr(ns[c.x], c.up.d) == t.x) == (c.d == c.up.d)
    ensures var ld := c.up.d;
            Lr(ns[c.up.x], ld) == c.x != c.up.x
            && (c.d == ld ==> FixedTree(c, t).x == c.x)
            && (c.d != ld ==> FixedTree(c, t).x == Lr(ns[c.x], Cd(ld)) == t.x && t.x != c.x && t.x != c.up.x)
    ensures c.up.up.Fr? <==> c.up.x != root
  {
    FixCellsDistinct(c, t, n);
    assert RepC(ns, root, c.up, c.x) && RepC(ns, root, c.up.up, c.up.x);
    if c.up.up.Fr? {
      RootInContext(ns, root, c.up.up, c.up.x);
      assert CUses(c.up, c.up.x) == 1 + Uses(c.up.sib, c.up.x) + CUses(c.up.up, c.up.x);
      assert CUses(c, c.up.x) + Uses(t, c.up.x) <= 1;
    }
  }

  /** The great-grandfather's link that leads to the rotated subtree. */
  lemma FixLink(ns: seq<Nd>, root: nat, c: Ctx, t: Tree, n: nat)
    requires DoubleRed(c, t) && RepZ(ns, root, c, t) && Distinct(c, t, n) && n == |ns| <= NIL
    ensures Rep(ns, Above2(c, t)) && Injective(Above2(c, t))
    ensures var up := c.up.up;
            var ms := FixedNodes(ns, c, t);
            |ms| == |ns| && (up.Fr? ==> up.x < |ms| && (ms[up.x].r == c.up.x) == up.d.Right?)
  {
    FixedRep(ns, root, c, t, n);
    var up := c.up.up;
    if up.Fr? {
      assert RepC(ns, root, c.up, c.x);
      assert CUses(c, c.up.x) + Uses(t, c.up.x) <= 1;
      assert CUses(c.up, c.up.x) == 1 + Uses(c.up.sib, c.up.x) + CUses(up, c.up.x);
      HoleDirection(FixedNodes(ns, c, t), root, up, c.up.x);
    }
  }

  lemma FixCellsDistinct(c: Ctx, t: Tree, n: nat)
    requires DoubleRed(c, t) && Distinct(c, t, n) && n <= NIL
    ensures t.x != c.x && t.x != c.up.x && c.x != c.up.x && Idx(c.sib) != t.x && t.x < NIL
  {
    assert Uses(t, t.x) > 0;
    assert CUses(c, t.x) == 0;
    assert CUses(c, c.x) + Uses(t, c.x) <= 1;
    assert CUses(c.up, c.x) == 0;
    if c.sib.Node? {
      assert Uses(c.sib, c.sib.x) > 0;
      assert CUses(c, c.sib.x) > 0;
    }
  }

  lemma UpUses(up: Ctx, g: Tree, n: nat)
    requires up.Fr? && Distinct(up, g, n)
    ensures CUses(up, up.x) == 1 && Uses(g, up.x) == 0
  {
    assert CUses(up, up.x) >= 1;
  }

  lemma FixedUses(c: Ctx, t: Tree, i: nat)
    requires c.Fr? && c.up.Fr? && t.Node?
    ensures Uses(FixedTree(c, t), i) == Uses(Above2(c, t), i)
  {
    var g := Above2(c, t);
    var d := Cd(c.up.d);
    if c.d == c.up.d {
      RotUses(g, d, i);
    } else {
      var y := Child(g, Cd(d));
      RotUses(y, Cd(d), i);
      RotUses(RotChildTree(g, d), d, i);
      var h := RotChildTree(g, d);
      assert Uses(h, i) == (if g.x == i then 1 else 0) + Uses(Child(g, d), i) + Uses(RotTree(y, Cd(d)), i);
      assert Uses(g, i) == (if g.x == i then 1 else 0) + Uses(Child(g, d), i) + Uses(y, i);
    }
  }

  /* ---- the rotation with a stale link ---- */

  /** What the window can hold in place of the great-grandfather when that entry is stale: the father, or the
      grandfather's other son. */
  predicate StaleEntry(e: Win, c: Ctx)
    requires c.Fr? && c.up.Fr?
  {
    e.At? && (e.x == c.x || (c.up.sib.Node? && e.x == c.up.sib.x))
  }

  /** `q` is what a rotation has made of the grandfather's subtree, the old grandfather being its son on the side away
      from `ld`. Slot `s` is one that the stale entry can name. */
  predicate StaleSlot(q: Tree, ld: Dir, s: nat) {
    q.Node? && Child(q, ld).Node? && Child(q, Cd(ld)).Node? &&
    var g := Child(q, Cd(ld));
    s == q.x || s == Child(q, ld).x || (Child(g, Cd(ld)).Node? && s == Child(g, Cd(ld)).x)
  }

  /** The stale entries are not the great-grandfather. */
  lemma StaleTwo(c: Ctx, t: Tree, e: Win, n: nat)
    requires Distinct(c, t, n) && c.Fr? && c.up.Fr?
    ensures StaleEntry(e, c) ==> e != CtxWin(c.up.up)
  {
    var up := c.up.up;
    if up.Fr? && e == At(up.x) {
      assert CUses(c.up, up.x) >= CUses(up, up.x) >= 1 && CUses(c, up.x) + Uses(t, up.x) <= 1;
      if c.up.sib.Node? {
        assert Uses(c.up.sib, c.up.sib.x) >= 1;
      }
    }
  }

  lemma FixedDistinct(c: Ctx, t: Tree, n: nat)
    requires DoubleRed(c, t) && Distinct(c, t, n)
    ensures Distinct(c.up.up, FixedTree(c, t), n)
  {
    Above2Injective(c, t, n);
    forall i: nat
      ensures CUses(c.up.up, i) + Uses(FixedTree(c, t), i) == if i < n then 1 else 0
    {
      FixedUses(c, t, i);
    }
  }

  lemma FixedShape(c: Ctx, t: Tree, e: Win)
    requires DoubleRed(c, t) && StaleEntry(e, c)
    ensures var q, ld := FixedTree(c, t), c.up.d;
            StaleSlot(q, ld, e.x) && Child(q, Cd(ld)).x == c.up.x && Fill(c.up.up, q) == Fill(Fix(c, t).c, Fix(c, t).t)
  {
    FixIsRotation(c, t);
  }

  /** Linking the rotated subtree from a stale slot makes a cycle, or hides nodes from the root. */
  lemma StaleBreaks(ms: seq<Nd>, root: nat, up: Ctx, q: Tree, ld: Dir, s: nat, d2: Dir, n: nat)
    requires StaleSlot(q, ld, s) && Rep(ms, q) && RepC(ms, root, up, Child(q, Cd(ld)).x)
    requires Distinct(up, q, n) && n == |ms| <= NIL
    ensures s < |ms|
    ensures Shrunk(ms[s := WithLr(ms[s], d2, q.x)], if up.Fr? then root else q.x, |Ent(Fill(up, q))|)
  {
    var g := Child(q, Cd(ld));
    StaleUses(up, q, ld, s, n);
    var ns := ms[s := WithLr(ms[s], d2, q.x)];
    var top := if up.Fr? then root else q.x;
    RepCSet(ms, root, up, g.x, s, ns[s]);
    forall u | RepZ(ns, top, Top, u)
      ensures |Ent(u)| + 2 <= |Ent(Fill(up, q))|
    {
      var w := u;
      if up.Fr? {
        w := PathTo(ns, root, up, g.x, u);
      }
      StaleCycles(ms, q, ld, s, d2, w);
      StaleHides(ms, up, q, ld, s, d2, w, n);
    }
  }

  lemma StaleUses(up: Ctx, q: Tree, ld: Dir, s: nat, n: nat)
    requires StaleSlot(q, ld, s) && Distinct(up, q, n)
    ensures s < n && CUses(up, s) == 0 && q.x < n && Child(q, ld).x < n && Child(q, Cd(ld)).x < n
    ensures q.x != Child(q, ld).x && q.x != Child(q, Cd(ld)).x
    ensures var g := Child(q, Cd(ld));
            (s == q.x || s == Child(q, ld).x ==> Uses(g, s) == 0) && s != g.x
            && (Child(g, Cd(ld)).Node? && s == Child(g, Cd(ld)).x ==> s != q.x)
  {
    var a, g := Child(q, ld), Child(q, Cd(ld));
    assert Uses(q, q.x) == 1 + Uses(a, q.x) + Uses(g, q.x);
    assert CUses(up, q.x) + Uses(q, q.x) <= 1;
    assert Uses(q, a.x) >= Uses(a, a.x) >= 1 && CUses(up, a.x) + Uses(q, a.x) <= 1;
    assert Uses(q, g.x) >= Uses(g, g.x) >= 1 && CUses(up, g.x) + Uses(q, g.x) <= 1;
    var h := Child(g, Cd(ld));
    if h.Node? {
      assert Uses(g, h.x) >= Uses(h, h.x) >= 1 && CUses(up, h.x) + Uses(q, h.x) <= 1;
    }
  }

  /** The cycles. */
  lemma StaleCycles(ms: seq<Nd>, q: Tree, ld: Dir, s: nat, d2: Dir, w: Tree)
    requires StaleSlot(q, ld, s) && Rep(ms, q) && |ms| <= NIL && s < |ms| && s != Child(q, Cd(ld)).x
    requires q.x != Child(q, ld).x && q.x != Child(q, Cd(ld)).x
    requires Rep(ms[s := WithLr(ms[s], d2, q.x)], w) && w.Node?
    ensures w.x != q.x
    ensures s != q.x && s != Child(q, ld).x ==> w.x != Child(q, Cd(ld)).x
  {
    var ns, g := ms[s := WithLr(ms[s], d2, q.x)], Child(q, Cd(ld));
    var e := Cd(ld);
    assert Rep(ms, q.l) && Rep(ms, q.r) && Lr(ms[q.x], ld) == Child(q, ld).x && Lr(ms[q.x], e) == g.x;
    assert Lr(ns[s], d2) == q.x;
    if s == q.x {
      Round1(ns, s, d2);
      NoCycle(ns, w, [d2]);
    } else if s == Child(q, ld).x {
      Round2(ns, q.x, ld, s, d2);
      NoCycle(ns, w, [ld, d2]);
    } else {
      assert Lr(ms[g.x], e) == s;
      Round3(ns, q.x, e, g.x, e, s, d2);
      Round3(ns, g.x, e, s, d2, q.x, e);
      NoCycle(ns, w, [e, e, d2]);
      NoCycle(ns, w, [e, d2, e]);
    }
  }

  lemma Round1(ns: seq<Nd>, i: nat, d: Dir)
    requires i < |ns| && Lr(ns[i], d) == i
    ensures Goes(ns, i, [d]) == i
  {
    assert [d][1..] == [];
  }

  lemma Round2(ns: seq<Nd>, i: nat, d: Dir, j: nat, e: Dir)
    requires i < |ns| && j < |ns| && Lr(ns[i], d) == j && Lr(ns[j], e) == i
    ensures Goes(ns, i, [d, e]) == i
  {
    assert [d, e][1..] == [e] && [e][1..] == [];
    assert Goes(ns, j, [e]) == i;
  }

  lemma Round3(ns: seq<Nd>, i: nat, d: Dir, j: nat, e: Dir, k: nat, f: Dir)
    requires i < |ns| && j < |ns| && k < |ns| && Lr(ns[i], d) == j && Lr(ns[j], e) == k && Lr(ns[k], f) == i
    ensures Goes(ns, i, [d, e, f]) == i
  {
    assert [d, e, f][1..] == [e, f] && [e, f][1..] == [f] && [f][1..] == [];
    assert Goes(ns, k, [f]) == i;
  }

  /** Where there is no cycle the old grandfather's subtree is all that the link from above still reaches. */
  lemma StaleHides(ms: seq<Nd>, up: Ctx, q: Tree, ld: Dir, s: nat, d2: Dir, w: Tree, n: nat)
    requires StaleSlot(q, ld, s) && Rep(ms, q) && Distinct(up, q, n) && n == |ms| <= NIL && s < |ms|
    requires Rep(ms[s := WithLr(ms[s], d2, q.x)], w) && Idx(w) == Child(q, Cd(ld)).x
    requires s == q.x || s == Child(q, ld).x
    ensures |Ent(Fill(up, w))| + 2 <= |Ent(Fill(up, q))|
  {
    var g := Child(q, Cd(ld));
    StaleUses(up, q, ld, s, n);
    RepSet(ms, g, s, WithLr(ms[s], d2, q.x));
    RepUnique(ms[s := WithLr(ms[s], d2, q.x)], w, g);
    FillEnt(up, w);
    FillEnt(up, q);
    assert |Ent(q)| == |Ent(Child(q, ld))| + 1 + |Ent(g)|;
    assert |Ent(Child(q, ld))| >= 1;
  }

  lemma FlipRep(ns: seq<Nd>, root: nat, c: Ctx, t: Tree, n: nat)
    requires RepZ(ns, root, c, t) && Distinct(c, t, n) && t.Node? && |ns| <= NIL && Red(t.l) && Red(t.r)
    ensures RepZ(FatherRed(ns, t.x), root, c, Flip(t)) && |FatherRed(ns, t.x)| == |ns|
    ensures Distinct(c, Flip(t), n)
  {
    FatherRedRep(ns, t);
    FatherRedFrame(ns, root, c, t, n);
    FlipSame(t);
  }

  lemma FatherRedFrame(ns: seq<Nd>, root: nat, c: Ctx, t: Tree, n: nat)
    requires RepZ(ns, root, c, t) && Distinct(c, t, n) && t.Node? && |ns| <= NIL
    ensures RepC(FatherRed(ns, t.x), root, c, t.x) && |FatherRed(ns, t.x)| == |ns|
  {
    FatherRedCell(ns, t);
    forall j: nat | CUses(c, j) > 0
      ensures Agree(ns, FatherRed(ns, t.x), j)
    {
      assert Uses(t, j) == 0;
      RepUsesNode(t, j);
      assert t.l.Node? ==> Uses(t.l, t.l.x) > 0;
      assert t.r.Node? ==> Uses(t.r, t.r.x) > 0;
    }
    RepCFrame(ns, FatherRed(ns, t.x), root, c, t.x);
  }

  /** Setting the root's colour through the root index. */
  lemma {:induction false} BlackenRep(ns: seq<Nd>, root: nat, c: Ctx, i: nat)
    requires RepC(ns, root, c, i) && c.Fr? && forall j: nat :: CUses(c, j) <= 1
    ensures RepC(Recoloured(ns, root, false), root, BlackenRoot(c), i)
  {
    RootInContext(ns, root, c, i);
    assert CUses(c, c.x) >= 1;
    if c.up.Top? {
      assert Uses(c.sib, root) == 0;
      RecolourOther(ns, c.sib, root, false);
    } else {
      forall j: nat
        ensures CUses(c.up, j) <= 1
      {
        assert CUses(c, j) <= 1;
      }
      RootInContext(ns, root, c.up, c.x);
      assert CUses(c, root) <= 1;
      BlackenRep(ns, root, c.up, c.x);
      RecolourOther(ns, c.sib, root, false);
    }
  }

  lemma GrowRep(ns: seq<Nd>, root: nat, c: Ctx, i: nat, n: Nd)
    requires RepC(ns, root, c, i)
    ensures RepC(ns + [n], root, c, i)
  {
    RepCFrame(ns, ns + [n], root, c, i);
  }

  /** Attaching a new red leaf in the next slot and blackening the root. */
  lemma AttachRep(ns: seq<Nd>, root: nat, c: Ctx, k: int, v: int)
    requires RepZ(ns, root, c, Leaf) && c.Fr? && Distinct(c, Leaf, |ns|) && |ns| < NIL
    ensures var a := ns + [Nd(true, NIL, NIL, k, v)];
            var b := Relinked(a, c, |ns|);
            RepZ(Recoloured(b, root, false), root, BlackenRoot(c), Node(|ns|, true, Leaf, k, v, Leaf))
            && Distinct(BlackenRoot(c), Node(|ns|, true, Leaf, k, v, Leaf), |ns| + 1)
            && |Recoloured(b, root, false)| == |ns| + 1
  {
    var a := ns + [Nd(true, NIL, NIL, k, v)];
    var b := Relinked(a, c, |ns|);
    GrowRep(ns, root, c, NIL, Nd(true, NIL, NIL, k, v));
    assert CUses(c, c.x) >= 1;
    assert CUses(c, |ns|) + Uses(Leaf, |ns|) == 0;
    assert CUses(c, c.x) + Uses(Leaf, c.x) <= 1;
    RelinkRep(a, root, c, NIL, |ns|);
    assert forall j: nat :: CUses(c, j) + Uses(Leaf, j) == CUses(c, j);
    BlackenRep(b, root, c, |ns|);
    RootInContext(b, root, c, |ns|);
    BlackenSame(c);
  }

  /* ---- the sliding window of the last four nodes ---- */

  datatype Win = Null | Aux | At(x: nat)

  function SonWin(t: Tree): Win {
    if t.Leaf? then Null else At(t.x)
  }

  function CtxWin(c: Ctx): Win {
    if c.Fr? then At(c.x) else Null
  }

  /** Which entries of the window are the true ancestors. */
  predicate WindowOk(w: seq<Win>, i: nat, d: Dir, ld: Dir, s: Stale, c: Ctx, t: Tree) {
    |w| == 4 && i < 4
    && w[i] == SonWin(t)
    && w[(i + 3) % 4] == CtxWin(c) && (c.Fr? ==> d == c.d)
    && (c.Top? ==> w[(i + 2) % 4] == Null)
    && (s != Deep && c.Fr? ==> w[(i + 2) % 4] == CtxWin(c.up) && (c.up.Fr? ==> ld == c.up.d))
    && (c.Fr? && c.up.Fr? ==> (s == Full ==> w[(i + 1) % 4] == CtxWin(c.up.up))
                              && (s == Shallow ==> StaleEntry(w[(i + 1) % 4], c)))
    && (s == Deep ==> c.Fr? && !c.red && t.Node? && w[(i + 2) % 4].At?
                      && (w[(i + 2) % 4].x == t.x || (c.sib.Node? && w[(i + 2) % 4].x == c.sib.x)))
  }

  /** Below a double rotation nothing is rotated, and two steps further down the window is right again. */
  lemma WindowStep(w: seq<Win>, i: nat, d: Dir, ld: Dir, s: Stale, c: Ctx, t: Tree, k: int)
    requires WindowOk(w, i, d, ld, s, c, t) && t.Node? && t.k != k && (s == Shallow ==> !DoubleRed(c, Flip(t)))
    ensures var f := Fix(c, Flip(t));
            var d' := Toward(f.t, k);
            var j := (i + 1) % 4;
            f.t.Node? && f.t.x == t.x &&
            WindowOk(w[j := SonWin(Child(f.t, d'))], j, d', d,
                     NextStale(s, c, t), Down(f.c, f.t, d'), Child(f.t, d'))
  {
  }

  lemma {:induction false} FillRep(ns: seq<Nd>, root: nat, c: Ctx, t: Tree)
    requires RepZ(ns, root, c, t)
    ensures RepZ(ns, root, Top, Fill(c, t))
  {
    if c.Fr? {
      UpRep(ns, root, c, t);
      FillRep(ns, root, c.up, Above1(c, t));
    }
  }

  lemma SonCells(ns: seq<Nd>, t: Tree)
    requires Rep(ns, t) && t.Node? && |ns| <= NIL
    ensures t.l.Leaf? <==> ns[t.x].l == NIL
    ensures t.r.Leaf? <==> ns[t.x].r == NIL
    ensures t.l.Node? ==> ns[t.x].l < |ns| && ns[ns[t.x].l].red == t.l.red
    ensures t.r.Node? ==> ns[t.x].r < |ns| && ns[ns[t.x].r].red == t.r.red
  {
  }

  lemma {:induction false} BlackenWindow(c: Ctx)
    ensures var b := BlackenRoot(c);
            CtxWin(b) == CtxWin(c) && (c.Fr? ==> b.d == c.d && CtxWin(b.up) == CtxWin(c.up) && b.sib == c.sib)
            && (c.Fr? && c.up.Fr? ==> b.up.d == c.up.d && CtxWin(b.up.up) == CtxWin(c.up.up) && b.up.sib == c.up.sib)
    decreases c
  {
    if c.Fr? && c.up.Fr? {
      BlackenWindow(c.up);
    }
  }

  lemma FixDistinct(c: Ctx, t: Tree, n: nat)
    requires Distinct(c, t, n)
    ensures Distinct(Fix(c, t).c, Fix(c, t).t, n)
  {
    forall i: nat
      ensures var f := Fix(c, t); CUses(f.c, i) + Uses(f.t, i) == if i < n then 1 else 0
    {
      FixUses(c, t, i);
    }
  }

  lemma UpdateRep(ns: seq<Nd>, root: nat, c: Ctx, t: Tree, n: nat, v: int)
    requires t.Node? && RepZ(ns, root, c, t) && Distinct(c, t, n)
    ensures t.x < |ns| && RepZ(ns[t.x := ns[t.x].(v := v)], root, c, t.(v := v))
  {
    var m := ns[t.x].(v := v);
    assert Uses(t, t.x) >= 1;
    assert CUses(c, t.x) + Uses(t, t.x) <= 1;
    RepSet(ns, t.l, t.x, m);
    RepSet(ns, t.r, t.x, m);
    RepCSet(ns, root, c, t.x, t.x, m);
  }

  /** The loop invariant that does not speak of the array. */
  ghost predicate InsertInv(w: seq<Win>, i: nat, d: Dir, ld: Dir, s: Stale, c: Ctx, t: Tree, k: int, n: nat) {
    Distinct(c, t, n) && OnPath(c, k) && (c.Fr? || t.Node?) && WindowOk(w, i, d, ld, s, c, t)
  }

  /** A step of the walk that does not end it. */
  lemma InsertInvStep(w: seq<Win>, i: nat, d: Dir, ld: Dir, s: Stale, c: Ctx, t: Tree, k: int, n: nat)
    requires InsertInv(w, i, d, ld, s, c, t, k, n) && t.Node? && t.k != k && (s == Shallow ==> !DoubleRed(c, Flip(t)))
    ensures var f := Fix(c, Flip(t));
            f.t.Node? && Distinct(f.c, f.t, n) && f.t.k == t.k &&
            var d' := Toward(f.t, k);
            var j := (i + 1) % 4;
            var w' := w[j := SonWin(Child(f.t, d'))];
            InsertInv(w', j, d', d, NextStale(s, c, t), Down(f.c, f.t, d'), Child(f.t, d'), k, n)
            && Finds(Child(f.t, d'), k) == Finds(t, k)
            && Measure(Down(f.c, f.t, d'), Child(f.t, d'), k) < Measure(c, t, k)
            && |Ent(Fill(Down(f.c, f.t, d'), Child(f.t, d')))| == |Ent(Fill(c, t))|
            && Steady(c, t, k, s) == Steady(Down(f.c, f.t, d'), Child(f.t, d'), k, NextStale(s, c, t))
  {
    var f := Fix(c, Flip(t));
    StepDecreases(c, t, k);
    StepSize(c, t);
    DownSame(f.c, f.t, Toward(f.t, k));
    FlipSame(t);
    FixDistinct(c, Flip(t), n);
    FixFinds(c, t, k);
    WindowStep(w, i, d, ld, s, c, t, k);
    DownDistinct(f.c, f.t, Toward(f.t, k), n);
  }

  lemma FixSize(c: Ctx, t: Tree)
    ensures var f := Fix(c, t); |Ent(Fill(f.c, f.t))| == |Ent(Fill(c, t))|
  {
    var f := Fix(c, t);
    FixSame(c, t);
    FillEnt(c, t);
    FillEnt(f.c, f.t);
  }

  lemma StepSize(c: Ctx, t: Tree)
    ensures var f := Fix(c, Flip(t)); |Ent(Fill(f.c, f.t))| == |Ent(Fill(c, t))|
  {
    FlipSame(t);
    FixSize(c, Flip(t));
    FillEnt(c, t);
    FillEnt(c, Flip(t));
  }

  /** A rotation with a stale great-grandfather shows that the walk is not steady; the end of the walk that it is. */
  lemma SteadyHere(c: Ctx, t: Tree, k: int, s: Stale)
    requires OnPath(c, k) && t.Node?
    ensures s == Shallow && DoubleRed(c, Flip(t)) ==> !Steady(c, t, k, s)
    ensures t.k == k && (s == Shallow ==> !DoubleRed(c, Flip(t))) ==> Steady(c, t, k, s)
  {
  }

  lemma SteadyEnd(c: Ctx, k: int, s: Stale, leaf: Tree)
    requires OnPath(c, k) && leaf.Node? && leaf.red
    ensures Steady(c, Leaf, k, s) <==> (s == Shallow ==> !DoubleRed(BlackenRoot(c), leaf))
  {
    BlackenWindow(c);
  }

  lemma AttachSize(c: Ctx, leaf: Tree)
    requires leaf.Node? && leaf.l.Leaf? && leaf.r.Leaf?
    ensures |Ent(Fill(BlackenRoot(c), leaf))| == |Ent(Fill(c, Leaf))| + 1
  {
    BlackenSame(c);
    FillEnt(c, Leaf);
    FillEnt(BlackenRoot(c), leaf);
  }

  /** Reading the son's index from the array. */
  lemma SonIndex(ns: seq<Nd>, t: Tree, d: Dir)
    requires t.Node? && Rep(ns, t) && |ns| <= NIL
    ensures t.x < |ns| && ns[t.x].k == t.k && ns[t.x].v == t.v
    ensures SonWin(Child(t, d)) == if Lr(ns[t.x], d) == NIL then Null else At(Lr(ns[t.x], d))
  {
  }

  lemma DownDistinct(c: Ctx, t: Tree, d: Dir, n: nat)
    requires t.Node? && Distinct(c, t, n)
    ensures Distinct(Down(c, t, d), Child(t, d), n)
  {
    forall i: nat
      ensures CUses(Down(c, t, d), i) + Uses(Child(t, d), i) == if i < n then 1 else 0
    {
      UpUses1(Down(c, t, d), Child(t, d), i);
    }
  }

  lemma SingletonRep(k: int, v: int)
    ensures RepZ([Nd(false, NIL, NIL, k, v)], 0, Top, Node(0, false, Leaf, k, v, Leaf))
  {
  }

  lemma TopLink(ns: seq<Nd>, root: nat, c: Ctx, t: Tree)
    requires RepZ(ns, root, c, t) && t.Node?
    ensures if c.Fr? then c.x < |ns| && Lr(ns[c.x], c.d) == t.x else root == t.x
  {
  }

  lemma InsertInvStart(t: Tree, k: int)
    requires t.Node?
    ensures forall n :: Distinct(Top, t, n) ==>
              InsertInv([At(t.x), Aux, Null, Null], 0, Left, Left, Full, Top, t, k, n)
    ensures Fill(Top, t) == t
  {
  }

  /** One round of the search loop. */
  lemma InsertWalkStep(c: Ctx, t: Tree, n: nat, k: int, v: int, rw: Rewrite)
    requires OnPath(c, k)
    ensures Finds(t, k) <==> t.Node? && (t.k == k || Finds(Child(t, Toward(t, k)), k))
    ensures t.Leaf? ==>
              var f := Fix(BlackenRoot(c), Node(n, true, Leaf, k, rw(None, v), Leaf));
              InsertWalk(c, t, n, k, v, rw) == Fill(f.c, f.t)
    ensures t.Node? ==>
              var f := Fix(c, Flip(t));
              f.t.Node? && f.t.k == t.k && f.t.x == t.x
              && (t.k == k ==> InsertWalk(c, t, n, k, v, rw) == Fill(f.c, f.t.(v := rw(Some(f.t.v), v))))
              && (t.k != k ==>
                    var d := Toward(f.t, k);
                    OnPath(Down(f.c, f.t, d), k)
                    && InsertWalk(c, t, n, k, v, rw) == InsertWalk(Down(f.c, f.t, d), Child(f.t, d), n, k, v, rw))
  {
    if t.Node? {
      StepDecreases(c, t, k);
    }
  }

  /** What is known of the tree after an insertion. */
  lemma InsertFacts(t: Tree, k: int, v: int, rw: Rewrite)
    requires Sorted(Ent(t)) && Compact(t, |Ent(t)|)
    ensures var u, m := Insert(t, |Ent(t)|, k, v, rw), Contents(t);
            Contents(u) == m[k := rw(Lookup(m, k), v)] && Sorted(Ent(u)) && Compact(u, |Ent(u)|)
            && |Ent(u)| == |Ent(t)| + (if Finds(t, k) then 0 else 1)
            && (Weak(t) ==> InsertsSteadily(t, k) && Weak(u))
            && (NoRedRedBelow(t) ==> InsertsSteadily(t, k) && NoRedRedBelow(u))
            && if |Ent(t)| == 0 then InsertsSteadily(t, k) && u == Node(0, false, Leaf, k, rw(None, v), Leaf)
               else t.Node?
  {
    var n := |Ent(t)|;
    hide Contents, Compact, InsertsSteadily, Sorted, Weak;
    InsertContents(t, n, k, v, rw);
    InsertPuts(t, n, k, v, rw);
    PutSorted(Ent(t), n, k, v, rw);
    FindsHasKey(t, k);
    InsertCompact(t, k, v, rw);
    hide HasKey, Finds;
    WeakNoRed(t);
    if Weak(t) {
      InsertKeepsRedBlack(t, n, k, v, rw);
    }
    if NoRedRedBelow(t) {
      InsertKeepsNoRed(t, n, k, v, rw);
    }
    EmptyInsert(t, k, v, rw);
  }

  lemma WeakNoRed(t: Tree)
    ensures Weak(t) ==> NoRedRedBelow(t)
  {
  }

  lemma EmptyInsert(t: Tree, k: int, v: int, rw: Rewrite)
    ensures if |Ent(t)| == 0 then
              InsertsSteadily(t, k) && Insert(t, |Ent(t)|, k, v, rw) == Node(0, false, Leaf, k, rw(None, v), Leaf)
            else t.Node?
  {
  }

  /** Neither the old entries nor the new ones can be read any more. */
  lemma EntriesGone(ns: seq<Nd>, root: nat, t: Tree, k: int, v: int)
    requires Shrunk(ns, root, |Ent(t)| + 1) && Sorted(Ent(t))
    ensures !StandsFor(ns, root, Contents(t)) && !StandsFor(ns, root, Contents(t)[k := v])
  {
    var m := Contents(t);
    DictSize(Ent(t));
    assert m[k := v].Keys == m.Keys + {k};
    assert |m[k := v]| == |m[k := v].Keys| >= |m.Keys| == |m|;
    ShrunkStands(ns, root, |Ent(t)| + 1, m);
    ShrunkStands(ns, root, |Ent(t)| + 1, m[k := v]);
  }

}
