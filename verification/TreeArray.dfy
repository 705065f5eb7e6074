/** The tree as it lies in memory: an array of nodes that refer to each other by index. */
module TreeArray {
  import opened RbModel

  /** "No node": the largest index a 31-bit field holds. */
  const NIL: nat := 0x7fff_ffff

  datatype Nd = Nd(red: bool, l: nat, r: nat, k: int, v: int)

  function Lr(n: Nd, d: Dir): nat {
    if d.Left? then n.l else n.r
  }

  function WithLr(n: Nd, d: Dir, i: nat): Nd {
    if d.Left? then n.(l := i) else n.(r := i)
  }

  function Idx(t: Tree): nat {
    if t.Leaf? then NIL else t.x
  }

  /** The slots of `t` hold exactly the nodes of `t`. */
  predicate Rep(ns: seq<Nd>, t: Tree) {
    t.Node? ==> t.x < |ns| && ns[t.x] == Nd(t.red, Idx(t.l), Idx(t.r), t.k, t.v) && Rep(ns, t.l) && Rep(ns, t.r)
  }

  /** The slots of the context hold its nodes, and the hole is the subtree at index `i`. */
  predicate RepC(ns: seq<Nd>, root: nat, c: Ctx, i: nat) {
    match c
    case Top => root == i
    case Fr(d, x, red, k, v, sib, up) =>
      x < |ns| && ns[x] == Cell(d, red, k, v, i, Idx(sib)) && Rep(ns, sib) && RepC(ns, root, up, x)
  }

  function Cell(d: Dir, red: bool, k: int, v: int, a: nat, b: nat): Nd {
    if d.Left? then Nd(red, a, b, k, v) else Nd(red, b, a, k, v)
  }

  predicate RepZ(ns: seq<Nd>, root: nat, c: Ctx, t: Tree) {
    Rep(ns, t) && RepC(ns, root, c, Idx(t))
  }

  /** No slot is used twice, and there are `n` of them. */
  ghost predicate Distinct(c: Ctx, t: Tree, n: nat) {
    forall i: nat :: CUses(c, i) + Uses(t, i) == if i < n then 1 else 0
  }

  /* ---- frames: what does not touch a slot of the tree leaves the tree alone ---- */

  predicate Agree(ns: seq<Nd>, ms: seq<Nd>, i: nat) {
    i < |ns| ==> i < |ms| && ms[i] == ns[i]
  }

  lemma {:induction false} RepFrame(ns: seq<Nd>, ms: seq<Nd>, t: Tree)
    requires Rep(ns, t) && forall i: nat :: Uses(t, i) > 0 ==> Agree(ns, ms, i)
    ensures Rep(ms, t)
  {
    if t.Node? {
      assert Uses(t, t.x) > 0;
      assert Agree(ns, ms, t.x);
      forall i: nat | Uses(t.l, i) > 0 || Uses(t.r, i) > 0
        ensures Agree(ns, ms, i)
      {
        assert Uses(t, i) > 0;
      }
      RepFrame(ns, ms, t.l);
      RepFrame(ns, ms, t.r);
    }
  }

  lemma {:induction false} RepCFrame(ns: seq<Nd>, ms: seq<Nd>, root: nat, c: Ctx, i: nat)
    requires RepC(ns, root, c, i) && forall j: nat :: CUses(c, j) > 0 ==> Agree(ns, ms, j)
    ensures RepC(ms, root, c, i)
  {
    if c.Fr? {
      assert CUses(c, c.x) > 0;
      assert Agree(ns, ms, c.x);
      forall j: nat | Uses(c.sib, j) > 0 || CUses(c.up, j) > 0
        ensures Agree(ns, ms, j)
      {
        assert CUses(c, j) > 0;
      }
      RepFrame(ns, ms, c.sib);
      RepCFrame(ns, ms, root, c.up, c.x);
    }
  }

  lemma RepSet(ns: seq<Nd>, t: Tree, x: nat, n: Nd)
    requires Rep(ns, t) && x < |ns| && Uses(t, x) == 0
    ensures Rep(ns[x := n], t)
  {
    RepFrame(ns, ns[x := n], t);
  }

  lemma RepCSet(ns: seq<Nd>, root: nat, c: Ctx, i: nat, x: nat, n: Nd)
    requires RepC(ns, root, c, i) && x < |ns| && CUses(c, x) == 0
    ensures RepC(ns[x := n], root, c, i)
  {
    RepCFrame(ns, ns[x := n], root, c, i);
  }

  lemma RepUsesNode(t: Tree, x: nat)
    requires t.Node? && Uses(t, x) == 0
    ensures t.x != x && Uses(t.l, x) == 0 && Uses(t.r, x) == 0
  {
  }

  /** The root index is a slot of the outermost node. */
  lemma {:induction false} RootInContext(ns: seq<Nd>, root: nat, c: Ctx, i: nat)
    requires RepC(ns, root, c, i) && c.Fr?
    ensures CUses(c, root) > 0
  {
    if c.up.Fr? {
      RootInContext(ns, root, c.up, c.x);
    }
  }

  /** Changing the index in the hole: the father's link, or the root index, is rewritten. */
  function Relinked(ns: seq<Nd>, c: Ctx, j: nat): seq<Nd>
    requires c.Fr? ==> c.x < |ns|
  {
    if c.Fr? then ns[c.x := WithLr(ns[c.x], c.d, j)] else ns
  }

  lemma RelinkRep(ns: seq<Nd>, root: nat, c: Ctx, i: nat, j: nat)
    requires RepC(ns, root, c, i) && (c.Fr? ==> CUses(c, c.x) == 1)
    ensures c.Fr? ==> c.x < |ns|
    ensures RepC(Relinked(ns, c, j), if c.Fr? then root else j, c, j)
  {
    if c.Fr? {
      var n := WithLr(ns[c.x], c.d, j);
      RepSet(ns, c.sib, c.x, n);
      RepCSet(ns, root, c.up, c.x, c.x, n);
    }
  }

  /** The father's other link is not the hole's index, so comparing its right link tells the direction. */
  lemma HoleDirection(ns: seq<Nd>, root: nat, c: Ctx, i: nat)
    requires RepC(ns, root, c, i) && c.Fr? && CUses(c, i) == 0 && i != NIL
    ensures (ns[c.x].r == i) == c.d.Right?
  {
    if c.sib.Node? {
      assert Uses(c.sib, c.sib.x) > 0;
    }
  }

  /* ---- colour flip ---- */

  function Recoloured(ns: seq<Nd>, i: nat, red: bool): seq<Nd> {
    if i < |ns| then ns[i := ns[i].(red := red)] else ns
  }

  function FatherRed(ns: seq<Nd>, x: nat): seq<Nd>
    requires x < |ns|
  {
    var a := Recoloured(ns, x, true);
    var b := Recoloured(a, a[x].l, false);
    Recoloured(b, b[x].r, false)
  }

  /** Setting the colour of a subtree's root. */
  lemma RecolourRep(ns: seq<Nd>, t: Tree, red: bool)
    requires Rep(ns, t) && |ns| <= NIL && (t.Node? ==> Uses(t, t.x) == 1)
    ensures Rep(Recoloured(ns, Idx(t), red), SetRed(t, red))
    ensures Idx(SetRed(t, red)) == Idx(t)
  {
    if t.Node? {
      var n := ns[t.x].(red := red);
      RepSet(ns, t.l, t.x, n);
      RepSet(ns, t.r, t.x, n);
    }
  }

  lemma RecolourOther(ns: seq<Nd>, t: Tree, i: nat, red: bool)
    requires Rep(ns, t) && Uses(t, i) == 0
    ensures Rep(Recoloured(ns, i, red), t)
  {
    if i < |ns| {
      RepSet(ns, t, i, ns[i].(red := red));
    }
  }

  lemma RecolourContext(ns: seq<Nd>, root: nat, c: Ctx, j: nat, i: nat, red: bool)
    requires RepC(ns, root, c, j) && CUses(c, i) == 0
    ensures RepC(Recoloured(ns, i, red), root, c, j)
  {
    if i < |ns| {
      RepCSet(ns, root, c, j, i, ns[i].(red := red));
    }
  }

  lemma FatherRedCell(ns: seq<Nd>, t: Tree)
    requires t.Node? && Rep(ns, t) && |ns| <= NIL && forall i: nat :: Uses(t, i) <= 1
    ensures var a := Recoloured(ns, t.x, true);
            var b := Recoloured(a, Idx(t.l), false);
            FatherRed(ns, t.x) == Recoloured(b, Idx(t.r), false)
            && FatherRed(ns, t.x)[t.x] == Nd(true, Idx(t.l), Idx(t.r), t.k, t.v)
  {
    NodeUses(t);
  }

  /** A node and its two sons recoloured: red above black. */
  lemma FatherRedRep(ns: seq<Nd>, t: Tree)
    requires t.Node? && Rep(ns, t) && |ns| <= NIL && forall i: nat :: Uses(t, i) <= 1
    ensures Rep(FatherRed(ns, t.x), Node(t.x, true, SetRed(t.l, false), t.k, t.v, SetRed(t.r, false)))
  {
    NodeUses(t);
    FatherRedCell(ns, t);
    FatherRedSons(ns, t);
    assert Idx(SetRed(t.l, false)) == Idx(t.l) && Idx(SetRed(t.r, false)) == Idx(t.r);
  }

  lemma FatherRedSons(ns: seq<Nd>, t: Tree)
    requires t.Node? && Rep(ns, t) && |ns| <= NIL && forall i: nat :: Uses(t, i) <= 1
    ensures Rep(FatherRed(ns, t.x), SetRed(t.l, false)) && Rep(FatherRed(ns, t.x), SetRed(t.r, false))
  {
    var a := Recoloured(ns, t.x, true);
    var b := Recoloured(a, Idx(t.l), false);
    NodeUses(t);
    FatherRedCell(ns, t);
    RecolourOther(ns, t.l, t.x, true);
    RecolourOther(ns, t.r, t.x, true);
    RecolourRep(a, t.l, false);
    NotInOther(t.l, t.r);
    NotInOther(t.r, t.l);
    OtherSon(a, t.r, t.l);
    RecolourRep(b, t.r, false);
    Recolour(t.l, false);
    OtherSon(b, SetRed(t.l, false), t.r);
  }

  lemma NotInOther(a: Tree, b: Tree)
    requires forall i: nat :: Uses(a, i) == 0 || Uses(b, i) == 0
    ensures a.Node? ==> Uses(b, a.x) == 0
  {
    assert a.Node? ==> Uses(a, a.x) > 0;
  }

  lemma OtherSon(ns: seq<Nd>, t: Tree, other: Tree)
    requires Rep(ns, t) && |ns| <= NIL && (other.Node? ==> Uses(t, other.x) == 0)
    ensures Rep(Recoloured(ns, Idx(other), false), t)
  {
    if other.Node? {
      RecolourOther(ns, t, other.x, false);
    }
  }

  /** Slots of a node whose slots are distinct; NIL is none of them. */
  lemma NodeUses(t: Tree)
    requires t.Node? && forall i: nat :: Uses(t, i) <= 1
    ensures Uses(t.l, t.x) == 0 && Uses(t.r, t.x) == 0
    ensures forall i: nat :: Uses(t.l, i) <= 1 && Uses(t.r, i) <= 1 && (Uses(t.l, i) == 0 || Uses(t.r, i) == 0)
    ensures t.l.Node? ==> Uses(t.l, t.l.x) == 1 && Uses(t.r, t.l.x) == 0 && t.l.x != t.x
    ensures t.r.Node? ==> Uses(t.r, t.r.x) == 1 && Uses(t.l, t.r.x) == 0 && t.r.x != t.x
  {
    assert Uses(t, t.x) == 1;
    forall i: nat
      ensures Uses(t.l, i) <= 1 && Uses(t.r, i) <= 1 && (Uses(t.l, i) == 0 || Uses(t.r, i) == 0)
    {
      assert Uses(t, i) <= 1;
    }
    if t.l.Node? {
      assert Uses(t.l, t.l.x) >= 1;
    }
    if t.r.Node? {
      assert Uses(t.r, t.r.x) >= 1;
    }
  }

  /* ---- rotations ---- */

  /** One rotation: the child `y` of `x` in direction `xd` takes the place of `x`; `x` turns red and `y` black. */
  function Rotated(ns: seq<Nd>, x: nat, d: Dir, xd: Dir): seq<Nd>
    requires x < |ns| && Lr(ns[x], xd) < |ns|
  {
    var y := Lr(ns[x], xd);
    var a := ns[x := WithLr(ns[x], xd, Lr(ns[y], d)).(red := true)];
    a[y := WithLr(ns[y], d, x).(red := false)]
  }

  function RotTree(t: Tree, d: Dir): Tree
    requires t.Node? && Child(t, Cd(d)).Node?
  {
    var y := Child(t, Cd(d));
    SetRed(SetChild(y, d, SetRed(SetChild(t, Cd(d), Child(y, d)), true)), false)
  }

  lemma RotUses(t: Tree, d: Dir, i: nat)
    requires t.Node? && Child(t, Cd(d)).Node?
    ensures Uses(RotTree(t, d), i) == Uses(t, i)
  {
    var y := Child(t, Cd(d));
    var x' := SetRed(SetChild(t, Cd(d), Child(y, d)), true);
    assert Uses(x', i) == (if t.x == i then 1 else 0) + Uses(Child(t, d), i) + Uses(Child(y, d), i);
    assert Uses(t, i) == (if t.x == i then 1 else 0) + Uses(Child(t, d), i) + Uses(y, i);
  }

  ghost predicate Injective(t: Tree) {
    forall i: nat :: Uses(t, i) <= 1
  }

  lemma RotateCells(ns: seq<Nd>, t: Tree, d: Dir)
    requires t.Node? && Child(t, Cd(d)).Node? && Rep(ns, t) && Injective(t)
    ensures var y := Child(t, Cd(d));
            Lr(ns[t.x], Cd(d)) == y.x < |ns| && y.x != t.x
            && Uses(Child(t, d), t.x) == 0 && Uses(Child(t, d), y.x) == 0
            && Uses(y.l, t.x) == 0 && Uses(y.r, t.x) == 0 && Uses(y.l, y.x) == 0 && Uses(y.r, y.x) == 0
  {
    NodeUses(t);
    NodeUses(Child(t, Cd(d)));
  }

  /** The array rotation is the rotation of the tree in those slots, and touches nothing else. */
  lemma RotateRep(ns: seq<Nd>, t: Tree, d: Dir)
    requires t.Node? && Child(t, Cd(d)).Node? && Rep(ns, t) && Injective(t)
    ensures Lr(ns[t.x], Cd(d)) < |ns|
    ensures Rep(Rotated(ns, t.x, d, Cd(d)), RotTree(t, d))
    ensures |Rotated(ns, t.x, d, Cd(d))| == |ns|
    ensures forall i: nat :: Uses(t, i) == 0 ==> Agree(ns, Rotated(ns, t.x, d, Cd(d)), i)
  {
    var y := Child(t, Cd(d));
    RotateCells(ns, t, d);
    var ms := Rotated(ns, t.x, d, Cd(d));
    RotateRest(ns, Child(t, d), t.x, d);
    RotateRest(ns, y.l, t.x, d);
    RotateRest(ns, y.r, t.x, d);
    assert Rep(ms, SetRed(SetChild(t, Cd(d), Child(y, d)), true));
    forall i: nat | Uses(t, i) == 0
      ensures Agree(ns, ms, i)
    {
      RepUsesNode(t, i);
      RepUsesNode(y, i);
    }
  }

  lemma RotateRest(ns: seq<Nd>, t: Tree, x: nat, d: Dir)
    requires x < |ns| && Lr(ns[x], Cd(d)) < |ns| && Rep(ns, t)
    requires Uses(t, x) == 0 && Uses(t, Lr(ns[x], Cd(d))) == 0
    ensures Rep(Rotated(ns, x, d, Cd(d)), t)
  {
    RepFrame(ns, Rotated(ns, x, d, Cd(d)), t);
  }

  /** A rotation of the child of `x` in direction `xd`, with the link of `x` updated, then a rotation of `x`. */
  function RotatedChild(ns: seq<Nd>, x: nat, d: Dir, xd: Dir): seq<Nd>
    requires x < |ns| && Lr(ns[x], xd) < |ns| && Lr(ns[Lr(ns[x], xd)], d) < |ns|
  {
    var child := Lr(ns[x], xd);
    var a := Rotated(ns, child, xd, d);
    a[x := WithLr(a[x], xd, Lr(ns[child], d))]
  }

  function RotChildTree(t: Tree, d: Dir): Tree
    requires t.Node? && Child(t, Cd(d)).Node? && Child(Child(t, Cd(d)), d).Node?
  {
    SetChild(t, Cd(d), RotTree(Child(t, Cd(d)), Cd(d)))
  }

  lemma RotateChildRep(ns: seq<Nd>, t: Tree, d: Dir)
    requires t.Node? && Child(t, Cd(d)).Node? && Child(Child(t, Cd(d)), d).Node? && Rep(ns, t) && Injective(t)
    ensures Lr(ns[t.x], Cd(d)) < |ns| && Lr(ns[Lr(ns[t.x], Cd(d))], d) < |ns|
    ensures Rep(RotatedChild(ns, t.x, d, Cd(d)), RotChildTree(t, d))
    ensures |RotatedChild(ns, t.x, d, Cd(d))| == |ns|
    ensures forall i: nat :: Uses(t, i) == 0 ==> Agree(ns, RotatedChild(ns, t.x, d, Cd(d)), i)
    ensures Injective(RotChildTree(t, d)) && forall i: nat :: Uses(RotChildTree(t, d), i) == Uses(t, i)
  {
    var y := Child(t, Cd(d));
    NodeUses(t);
    RotateRep(ns, y, Cd(d));
    var a := Rotated(ns, y.x, Cd(d), d);
    var y' := RotTree(y, Cd(d));
    forall i: nat
      ensures Uses(y', i) == Uses(y, i)
    {
      RotUses(y, Cd(d), i);
    }
    assert Agree(ns, a, t.x);
    RepFrame(ns, a, Child(t, d));
    var n := WithLr(a[t.x], Cd(d), y'.x);
    RepSet(a, Child(t, d), t.x, n);
    RepSet(a, y', t.x, n);
    ReplacedUses(t, d, y');
    forall i: nat | Uses(t, i) == 0
      ensures Agree(ns, RotatedChild(ns, t.x, d, Cd(d)), i)
    {
      RepUsesNode(t, i);
      assert Agree(ns, a, i);
    }
  }

  lemma ReplacedUses(t: Tree, d: Dir, y: Tree)
    requires t.Node? && forall i: nat :: Uses(y, i) == Uses(Child(t, Cd(d)), i)
    ensures forall i: nat :: Uses(SetChild(t, Cd(d), y), i) == Uses(t, i)
  {
  }

}
