/** The self-balancing tree in one array of nodes: insertion, deletion and lookup in place. */
module STree {
  import opened RbModel
  import opened RbInsert
  import opened RbDelete
  import opened RbDeleteColours
  import opened TreeArray
  import opened TreeMap
  import opened TreeReading
  import opened InsertSteps
  import opened DeleteSteps
  import opened Wrappers

  /** The root index follows the node that replaces the root. */
  function CheckFixRoot(root: nat, pivot: nat, newPivot: nat): nat {
    if pivot == root then newPivot else root
  }

  /** Some node has both sons on the wrong side. */
  predicate BothSwapped(t: Tree) {
    t.Node? && ((t.l.Node? && t.l.k >= t.k && t.r.Node? && t.r.k <= t.k) || BothSwapped(t.l) || BothSwapped(t.r))
  }

  lemma {:induction false} SortedNotSwapped(t: Tree)
    requires Sorted(Ent(t))
    ensures !BothSwapped(t)
  {
    if t.Node? {
      NodeSorted(t);
      SortedNotSwapped(t.l);
      SortedNotSwapped(t.r);
      if t.l.Node? {
        NodeSorted(t.l);
        assert Ent(t.l)[|Ent(t.l.l)|].k == t.l.k;
      }
    }
  }

  lemma SingleNode(t: Tree)
    ensures |Ent(t)| == 1 ==> t.Node? && t.l.Leaf? && t.r.Leaf? && NoRedRed(t) && Balanced(t)
  {
    if t.Node? {
      assert |Ent(t)| == |Ent(t.l)| + 1 + |Ent(t.r)|;
      assert t.l.Node? ==> |Ent(t.l)| > 0;
      assert t.r.Node? ==> |Ent(t.r)| > 0;
    }
  }

  class Tree32 {
    var nodes: seq<Nd>
    var root: nat
    /** The tree that the array holds. */
    ghost var tree: Tree

    /** The array holds a search tree in slots 0 to size - 1. */
    ghost predicate Holds()
      reads this
    {
      |nodes| <= NIL && RepZ(nodes, root, Top, tree) && |Ent(tree)| == |nodes| && Compact(tree, |nodes|)
      && Sorted(Ent(tree))
    }

    /** ... and that tree is red-black, the root counted as black. */
    ghost predicate Valid()
      reads this
    {
      Holds() && Weak(tree)
    }

    constructor ()
      ensures Valid() && tree == Leaf
    {
      nodes, root, tree := [], NIL, Leaf;
    }

    method SetRedAt(i: nat, red: bool)
      modifies this`nodes
      ensures nodes == Recoloured(old(nodes), i, red)
      requires |nodes| <= NIL && (i < |nodes| || i == NIL)
    {
      if i != NIL {
        nodes := nodes[i := nodes[i].(red := red)];
      }
    }

    function IsRed(i: nat): (r: bool)
      requires i < |nodes| || i == NIL
      requires |nodes| <= NIL
      reads this
    {
      i != NIL && nodes[i].red
    }

    method Rot1x(x: nat, d: Dir, xd: Dir) returns (y: nat)
      requires x < |nodes| <= NIL && Lr(nodes[x], xd) < |nodes| && d != xd && Lr(nodes[x], xd) != x
      modifies this`nodes
      ensures y == Lr(old(nodes)[x], xd) && nodes == Rotated(old(nodes), x, d, xd)
    {
      y := Lr(nodes[x], xd);
      nodes := nodes[x := WithLr(nodes[x], xd, Lr(nodes[y], d))];
      nodes := nodes[y := WithLr(nodes[y], d, x)];
      SetRedAt(x, true);
      SetRedAt(y, false);
    }

    method Rot2x(x: nat, d: Dir, xd: Dir) returns (y: nat)
      requires x < |nodes| <= NIL && d != xd && Lr(nodes[x], xd) < |nodes|
      requires var c := Lr(nodes[x], xd);
               c != x && Lr(nodes[c], d) < |nodes| && Lr(nodes[c], d) != c && Lr(nodes[c], d) != x
      modifies this`nodes
      ensures y == Lr(old(nodes)[Lr(old(nodes)[x], xd)], d)
      ensures nodes == Rotated(RotatedChild(old(nodes), x, d, xd), x, d, xd)
    {
      var child := Lr(nodes[x], xd);
      y := Rot1x(child, xd, d);
      nodes := nodes[x := WithLr(nodes[x], xd, y)];
      y := Rot1x(x, d, xd);
    }

    /** A red node under a red father: rotates at the grandfather and links the result from what the window has for
        the great-grandfather; tells whether one rotation was enough. */
    method FixDoubleRed(w: seq<Win>, c: nat, ld: Dir, ghost gc: Ctx, ghost gt: Tree) returns (single: bool)
      requires DoubleRed(gc, gt) && RepZ(nodes, root, gc, gt) && Distinct(gc, gt, |nodes|) && |nodes| <= NIL
      requires |w| == 4 && c < 4 && ld == gc.up.d
      requires w[c] == At(gt.x) && w[(c + 3) % 4] == At(gc.x) && w[(c + 2) % 4] == At(gc.up.x)
      requires w[(c + 1) % 4] == CtxWin(gc.up.up) || StaleEntry(w[(c + 1) % 4], gc)
      modifies this`nodes, this`root
      ensures |nodes| == old(|nodes|) && single == (gc.d == gc.up.d)
      ensures var f := Fix(gc, gt);
              if StaleEntry(w[(c + 1) % 4], gc) then Shrunk(nodes, root, |Ent(Fill(f.c, f.t))|)
              else RepZ(nodes, root, f.c, f.t)
    {
      hide Distinct, Ent, Fill, Fix, Rep, RepC, Shrunk;
      ghost var ns, up := nodes, gc.up.up;
      var cp, cpp := w[(c + 3) % 4].x, w[(c + 2) % 4].x;
      var xld := Cd(ld);
      FixRep(nodes, root, gc, gt, |nodes|);
      FixLink(nodes, root, gc, gt, |nodes|);
      FixCells(nodes, root, gc, gt, |nodes|);
      single := w[c].x == Lr(nodes[cp], ld);
      var v;
      if single {
        v := Rot1x(cpp, xld, ld);
      } else {
        v := Rot2x(cpp, xld, ld);
      }
      assert nodes == FixedNodes(ns, gc, gt);
      var top := w[(c + 1) % 4];
      if top.At? {
        var d2 := if nodes[top.x].r == cpp then Right else Left;
        if StaleEntry(top, gc) {
          FixStale(ns, root, gc, gt, top, d2, |nodes|);
        }
        nodes := nodes[top.x := WithLr(nodes[top.x], d2, v)];
        if !StaleEntry(top, gc) {
          assert nodes == Relinked(FixedNodes(ns, gc, gt), up, v);
        }
        root := CheckFixRoot(root, cpp, v);
      } else {
        root := v;
      }
    }

    /** Inserts key `k`, or rewrites its data when it is present; `ok` is false when the tree cannot take another node.
        `astray` tells that the walk has rotated with a stale great-grandfather: the array no longer holds the entries,
        and what the call does after that is left open. It does not in a tree without red-red edges, balanced or not. */
    method InsertRw(k: int, v: int, rw: Rewrite) returns (ok: bool, astray: bool)
      requires Holds()
      modifies this
      ensures ok == (old(|nodes|) < NIL) && astray == (ok && !InsertsSteadily(old(tree), k))
      ensures !ok ==> nodes == old(nodes) && root == old(root) && tree == old(tree)
      ensures ok && !astray ==> Holds() && tree == Insert(old(tree), old(|nodes|), k, v, rw)
      ensures ok && !astray ==> Contents(tree) == Contents(old(tree))[k := rw(Lookup(Contents(old(tree)), k), v)]
      ensures ok ==> (Represents(Contents(old(tree))[k := rw(Lookup(Contents(old(tree)), k), v)]) <==> !astray)
      ensures astray ==> !Represents(Contents(old(tree)))
      ensures ok && old(Valid()) ==> !astray && Valid()
      ensures ok && old(NoRedRedBelow(tree)) ==> !astray && NoRedRedBelow(tree)
    {
      hide Contents, InsertsSteadily, RbInsert.Insert, Sorted, StandsFor, Shrunk;
      var ts := |nodes|;
      ok, astray := ts < NIL, false;
      if !ok {
        return;
      }
      ghost var t0 := tree;
      InsertFacts(t0, k, v, rw);
      if ts == 0 {
        nodes, root := [Nd(false, NIL, NIL, k, rw(None, v))], 0;
        tree := Node(0, false, Leaf, k, rw(None, v), Leaf);
        SingletonRep(k, rw(None, v));
        Stands(nodes, root, tree);
        return;
      }
      astray := InsertLoop(k, v, rw, t0);
      if astray {
        EntriesGone(nodes, root, t0, k, rw(Lookup(Contents(t0), k), v));
      } else {
        tree := Insert(t0, ts, k, v, rw);
        Stands(nodes, root, tree);
      }
    }

    /** The search loop on a non-empty tree. `stale` keeps count of the rotations; the code has no such variable. */
    method InsertLoop(k: int, v: int, rw: Rewrite, ghost t0: Tree) returns (astray: bool)
      requires 0 < |nodes| < NIL && RepZ(nodes, root, Top, t0) && Distinct(Top, t0, |nodes|) && t0.Node?
      modifies this`nodes, this`root
      ensures astray == !InsertsSteadily(t0, k)
      ensures if astray then Shrunk(nodes, root, |Ent(t0)| + 1)
              else RepZ(nodes, root, Top, Insert(t0, old(|nodes|), k, v, rw))
      ensures !astray ==> |nodes| == old(|nodes|) + if Finds(t0, k) then 0 else 1
    {
      hide Distinct, Ent, Steady, RepC, Rep, Fix, Flip, InsertWalk, Finds, PathLen, Fill, Shrunk;
      var ts := |nodes|;
      var w := [At(root), Aux, Null, Null];
      var c := 0;
      var ld, d := Left, Left;
      var stale := Full;
      ghost var gc, gt := Top, t0;
      InsertInvStart(t0, k);
      TopLink(nodes, root, Top, t0);
      while true
        invariant |nodes| == ts && RepZ(nodes, root, gc, gt) && InsertInv(w, c, d, ld, stale, gc, gt, k, ts)
        invariant InsertWalk(gc, gt, ts, k, v, rw) == Insert(t0, ts, k, v, rw)
        invariant Finds(gt, k) == Finds(t0, k) && Steady(gc, gt, k, stale) == InsertsSteadily(t0, k)
        invariant |Ent(Fill(gc, gt))| == |Ent(t0)|
        decreases Measure(gc, gt, k)
      {
        InsertWalkStep(gc, gt, ts, k, v, rw);
        if w[c] == Null {
          astray := AttachFixed(w, c, d, ld, stale, k, rw(None, v), gc);
          return;
        }
        var next;
        next, astray := Visit(w, c, d, ld, stale, k, gc, gt);
        SteadyHere(gc, gt, k, stale);
        if astray {
          return;
        }
        ghost var f := Fix(gc, Flip(gt));
        var x := w[c].x;
        if nodes[x].k == k {
          RewriteData(x, v, rw, f.c, f.t);
          return;
        }
        InsertInvStep(w, c, d, ld, stale, gc, gt, k, ts);
        ld, d := d, if nodes[x].k < k then Right else Left;
        SonIndex(nodes, f.t, d);
        DownRep(nodes, root, f.c, f.t, d);
        c := (c + 1) % 4;
        w := w[c := if Lr(nodes[x], d) == NIL then Null else At(Lr(nodes[x], d))];
        stale := next;
        gc, gt := Down(f.c, f.t, d), Child(f.t, d);
      }
    }

    /** Colour flip and rotation at the current node, before the comparison. */
    method Visit(w: seq<Win>, c: nat, ghost d: Dir, ld: Dir, stale: Stale, ghost k: int, ghost gc: Ctx, ghost gt: Tree)
      returns (next: Stale, astray: bool)
      requires RepZ(nodes, root, gc, gt) && InsertInv(w, c, d, ld, stale, gc, gt, k, |nodes|) && |nodes| <= NIL
      requires gt.Node?
      modifies this`nodes, this`root
      ensures |nodes| == old(|nodes|) && next == NextStale(stale, gc, gt)
      ensures astray == (stale == Shallow && DoubleRed(gc, Flip(gt)))
      ensures astray ==> Shrunk(nodes, root, |Ent(Fill(gc, gt))| + 1)
      ensures var f := Fix(gc, Flip(gt));
              !astray ==> RepZ(nodes, root, f.c, f.t) && Distinct(f.c, f.t, |nodes|) && f.t.Node?
                          && gt.x < |nodes| && nodes[gt.x].k == gt.k && nodes[gt.x].v == gt.v
    {
      FlipSons(w[c].x, gc, gt);
      next, astray := MaybeFixDoubleRed(w, c, d, ld, stale, gc, Flip(gt));
      FixDistinct(gc, Flip(gt), |nodes|);
      StepSize(gc, gt);
      if !astray {
        SonIndex(nodes, Fix(gc, Flip(gt)).t, Left);
      }
    }

    method AttachFixed(w: seq<Win>, c: nat, d: Dir, ld: Dir, stale: Stale, k: int, v: int, ghost gc: Ctx)
      returns (astray: bool)
      requires RepZ(nodes, root, gc, Leaf) && |nodes| < NIL && InsertInv(w, c, d, ld, stale, gc, Leaf, k, |nodes|)
      modifies this`nodes, this`root
      ensures |nodes| == old(|nodes|) + 1 && astray == !Steady(gc, Leaf, k, stale)
      ensures var f := Fix(BlackenRoot(gc), Node(old(|nodes|), true, Leaf, k, v, Leaf));
              if astray then Shrunk(nodes, root, |Ent(Fill(gc, Leaf))| + 1)
              else RepZ(nodes, root, Top, Fill(f.c, f.t))
    {
      ghost var leaf := Node(|nodes|, true, Leaf, k, v, Leaf);
      ghost var f := Fix(BlackenRoot(gc), leaf);
      Attach(w, c, d, k, v, gc);
      BlackenWindow(gc);
      SteadyEnd(gc, k, stale, leaf);
      AttachSize(gc, leaf);
      var next;
      FixSize(BlackenRoot(gc), leaf);
      next, astray := MaybeFixDoubleRed(w[c := At(|nodes| - 1)], c, d, ld, stale, BlackenRoot(gc), leaf);
      if !astray {
        FillRep(nodes, root, f.c, f.t);
      }
    }

    /** The key is present: only the data of its node changes. */
    method RewriteData(x: nat, v: int, rw: Rewrite, ghost gc: Ctx, ghost gt: Tree)
      requires RepZ(nodes, root, gc, gt) && Distinct(gc, gt, |nodes|) && gt.Node? && gt.x == x
      modifies this`nodes
      ensures |nodes| == old(|nodes|) && RepZ(nodes, root, Top, Fill(gc, gt.(v := rw(Some(gt.v), v))))
    {
      UpdateRep(nodes, root, gc, gt, |nodes|, rw(Some(gt.v), v));
      nodes := nodes[x := nodes[x].(v := rw(Some(nodes[x].v), v))];
      FillRep(nodes, root, gc, gt.(v := rw(Some(gt.v), v)));
    }

    /** Two red sons turn black and the node red. */
    method FlipSons(x: nat, ghost gc: Ctx, ghost gt: Tree)
      requires RepZ(nodes, root, gc, gt) && Distinct(gc, gt, |nodes|) && |nodes| <= NIL && gt.Node? && gt.x == x
      modifies this`nodes
      ensures |nodes| == old(|nodes|) && RepZ(nodes, root, gc, Flip(gt)) && Distinct(gc, Flip(gt), |nodes|)
    {
      SonCells(nodes, gt);
      if IsRed(nodes[x].l) && IsRed(nodes[x].r) {
        FlipRep(nodes, root, gc, gt, |nodes|);
        SetRedAt(x, true);
        SetRedAt(nodes[x].l, false);
        SetRedAt(nodes[x].r, false);
      }
    }

    /** The new node goes to the next slot, its father gets the link, the root turns black. */
    method Attach(w: seq<Win>, c: nat, d: Dir, k: int, v: int, ghost gc: Ctx)
      requires RepZ(nodes, root, gc, Leaf) && gc.Fr? && Distinct(gc, Leaf, |nodes|) && |nodes| < NIL
      requires |w| == 4 && c < 4 && w[(c + 3) % 4] == At(gc.x) && d == gc.d
      modifies this`nodes
      ensures var leaf := Node(old(|nodes|), true, Leaf, k, v, Leaf);
              |nodes| == old(|nodes|) + 1 && RepZ(nodes, root, BlackenRoot(gc), leaf)
              && Distinct(BlackenRoot(gc), leaf, |nodes|)
    {
      var ts := |nodes|;
      var cp := w[(c + 3) % 4].x;
      AttachRep(nodes, root, gc, k, v);
      RootInContext(nodes, root, gc, NIL);
      ghost var b := Relinked(nodes + [Nd(true, NIL, NIL, k, v)], gc, ts);
      nodes := nodes + [Nd(true, NIL, NIL, k, v)];
      nodes := nodes[cp := WithLr(nodes[cp], d, ts)];
      assert nodes == b && b[ts].red;
      if Lr(nodes[cp], Cd(d)) != NIL {
        nodes := nodes[ts := nodes[ts].(red := true)];
      }
      assert nodes == b;
      SetRedAt(root, false);
    }

    /** The check for a red node under a red father. */
    method MaybeFixDoubleRed(w: seq<Win>, c: nat, ghost d: Dir, ld: Dir, stale: Stale, ghost gc: Ctx, ghost gt: Tree)
      returns (next: Stale, astray: bool)
      requires RepZ(nodes, root, gc, gt) && Distinct(gc, gt, |nodes|) && |nodes| <= NIL && gt.Node?
      requires WindowOk(w, c, d, ld, stale, gc, gt)
      modifies this`nodes, this`root
      ensures |nodes| == old(|nodes|) && next == AfterCheck(stale, gc, gt)
      ensures astray == (stale == Shallow && DoubleRed(gc, gt))
      ensures var f := Fix(gc, gt);
              if astray then Shrunk(nodes, root, |Ent(Fill(f.c, f.t))|) else RepZ(nodes, root, f.c, f.t)
    {
      next, astray := AfterIdle(stale), false;
      if w[(c + 2) % 4] != Null && nodes[w[c].x].red && nodes[w[(c + 3) % 4].x].red {
        StaleTwo(gc, gt, w[(c + 1) % 4], |nodes|);
        var single := FixDoubleRed(w, c, ld, gc, gt);
        astray := stale == Shallow;
        next := if astray then Full else if single then Shallow else Deep;
      }
    }

    /* ---- deletion ---- */

    /** Pushes a red node down at the current node `w[c]`, before the walk leaves it in direction `d`. `aux` is the
        father of the root. */
    method PushDown(w: seq<Win>, c: nat, d: Dir, d0: Dir, aux: Nd, ghost gc: Ctx, ghost gt: Tree)
      returns (w': seq<Win>, aux': Nd)
      requires RepZ(nodes, root, gc, gt) && Distinct(gc, gt, |nodes|) && |nodes| <= NIL && gt.Node?
      requires DeleteWindow(w, c, d0, gc, gt) && aux.l == NIL && aux.r == root
      modifies this`nodes, this`root
      ensures |nodes| == old(|nodes|)
      ensures var f := Push(gc, gt, d); RepZ(nodes, root, f.c, f.t) && w' == w[(c + 3) % 4 := FatherWin(f.c)]
      ensures aux'.l == NIL && aux'.r == root
    {
      w', aux' := w, aux;
      var x := w[c].x;
      SonCells(nodes, gt);
      var nd := Lr(nodes[x], d);
      if nodes[x].red || IsRed(nd) {
        return;
      }
      if IsRed(Lr(nodes[x], Cd(d))) {
        w', aux' := PushByRotation(w, c, d, d0, aux, gc, gt);
        return;
      }
      aux' := PushFromAbove(w, c, d0, aux, gc, gt);
    }

    /** The current node and its sons are black. */
    method PushFromAbove(w: seq<Win>, c: nat, d0: Dir, aux: Nd, ghost gc: Ctx, ghost gt: Tree) returns (aux': Nd)
      requires RepZ(nodes, root, gc, gt) && Distinct(gc, gt, |nodes|) && |nodes| <= NIL && gt.Node?
      requires DeleteWindow(w, c, d0, gc, gt) && aux.l == NIL && aux.r == root
      modifies this`nodes, this`root
      ensures |nodes| == old(|nodes|)
      ensures var f := if gc.Top? || gc.sib.Leaf? then Focus(gc, gt) else PushFromSibling(gc, gt);
              RepZ(nodes, root, f.c, f.t)
      ensures aux'.l == NIL && aux'.r == root
    {
      aux' := aux;
      var x, cp := w[c].x, w[(c + 3) % 4];
      FatherCells(nodes, root, gc, gt, |nodes|);
      var s := if cp.At? then Lr(nodes[cp.x], Cd(d0)) else Lr(aux, Cd(d0));
      if s == NIL {
        return;
      }
      if !IsRed(Lr(nodes[s], Cd(d0))) && !IsRed(Lr(nodes[s], d0)) {
        FlipPushRep(nodes, root, gc, gt, |nodes|);
        SetRedAt(cp.x, false);
        SetRedAt(s, true);
        SetRedAt(x, true);
      } else if w[(c + 2) % 4] != Null {
        aux' := PushFromBrother(w, c, d0, s, aux, gc, gt);
      }
    }

    /** The other son is red: it takes the place of the current node. */
    method PushByRotation(w: seq<Win>, c: nat, d: Dir, d0: Dir, aux: Nd, ghost gc: Ctx, ghost gt: Tree)
      returns (w': seq<Win>, aux': Nd)
      requires RepZ(nodes, root, gc, gt) && Distinct(gc, gt, |nodes|) && |nodes| <= NIL && gt.Node?
      requires DeleteWindow(w, c, d0, gc, gt) && aux.l == NIL && aux.r == root
      requires !gt.red && !Red(Child(gt, d)) && Red(Child(gt, Cd(d)))
      modifies this`nodes, this`root
      ensures |nodes| == old(|nodes|)
      ensures var f := Push(gc, gt, d); RepZ(nodes, root, f.c, f.t) && w' == w[(c + 3) % 4 := FatherWin(f.c)]
      ensures aux'.l == NIL && aux'.r == root
    {
      ghost var f := Push(gc, gt, d);
      RotRelink(nodes, root, gc, gt, d, |nodes|);
      ghost var ms := Rotated(nodes, gt.x, d, Cd(d));
      RotPush(gc, gt, d);
      TopSlots(nodes, root, gc, gt, |nodes|);
      var y := Rot1x(w[c].x, d, Cd(d));
      assert nodes == ms;
      var p := w[(c + 3) % 4];
      aux' := aux;
      if p.At? {
        nodes := nodes[p.x := WithLr(nodes[p.x], d0, y)];
        assert nodes == Relinked(ms, gc, y);
      } else {
        aux' := WithLr(aux, d0, y);
      }
      root := CheckFixRoot(root, w[c].x, y);
      UpRep(nodes, root, f.c, f.t);
      w' := w[(c + 3) % 4 := At(y)];
    }

    /** A son of the brother is red: one or two rotations at the father, then the colours. */
    method PushFromBrother(w: seq<Win>, c: nat, d0: Dir, s: nat, aux: Nd, ghost gc: Ctx, ghost gt: Tree)
      returns (aux': Nd)
      requires RepZ(nodes, root, gc, gt) && Distinct(gc, gt, |nodes|) && |nodes| <= NIL && gt.Node?
      requires DeleteWindow(w, c, d0, gc, gt) && aux.l == NIL && aux.r == root
      requires gc.Fr? && gc.sib.Node? && s == gc.sib.x && (Red(gc.sib.l) || Red(gc.sib.r))
      modifies this`nodes, this`root
      ensures |nodes| == old(|nodes|)
      ensures var f := PushFromSibling(gc, gt); RepZ(nodes, root, f.c, f.t)
      ensures aux'.l == NIL && aux'.r == root
    {
      GrandLink(nodes, root, gc, gt, |nodes|);
      var gp := w[(c + 2) % 4];
      var d2 := if (if gp.At? then nodes[gp.x].r else aux.r) == w[(c + 3) % 4].x then Right else Left;
      aux' := TurnFather(w, c, d0, s, d2, aux, gc, gt);
      TopLink(nodes, root, gc.up, SiblingRotTree(gc, gt));
      ColourTurned(if gp.At? then Lr(nodes[gp.x], d2) else Lr(aux', d2), w[c].x, gc, gt);
    }

    method ColourTurned(top: nat, x: nat, ghost gc: Ctx, ghost gt: Tree)
      requires |nodes| <= NIL && gt.Node? && gt.x == x
      requires gc.Fr? && gc.sib.Node? && (Red(gc.sib.l) || Red(gc.sib.r))
      requires var q := SiblingRotTree(gc, gt);
               top == q.x && RepZ(nodes, root, gc.up, q) && Distinct(gc.up, q, |nodes|)
      modifies this`nodes
      ensures |nodes| == old(|nodes|)
      ensures var f := PushFromSibling(gc, gt); RepZ(nodes, root, f.c, f.t)
    {
      ghost var q := SiblingRotTree(gc, gt);
      SonCells(nodes, q);
      FatherRedCell(nodes, q);
      SiblingPushRep(nodes, root, gc, gt, |nodes|);
      ghost var ns := nodes;
      SetRedAt(top, true);
      SetRedAt(nodes[top].l, false);
      SetRedAt(nodes[top].r, false);
      assert nodes == FatherRed(ns, top);
      SetRedAt(x, nodes[top].red);
    }

    method TurnFather(w: seq<Win>, c: nat, d0: Dir, s: nat, d2: Dir, aux: Nd, ghost gc: Ctx, ghost gt: Tree)
      returns (aux': Nd)
      requires RepZ(nodes, root, gc, gt) && Distinct(gc, gt, |nodes|) && |nodes| <= NIL && gt.Node?
      requires DeleteWindow(w, c, d0, gc, gt) && aux.l == NIL && aux.r == root
      requires gc.Fr? && gc.sib.Node? && s == gc.sib.x && (Red(gc.sib.l) || Red(gc.sib.r))
      requires d2 == if gc.up.Fr? then gc.up.d else Right
      modifies this`nodes, this`root
      ensures |nodes| == old(|nodes|)
      ensures var q := SiblingRotTree(gc, gt); RepZ(nodes, root, gc.up, q) && Distinct(gc.up, q, |nodes|)
      ensures aux'.l == NIL && aux'.r == root
    {
      ghost var ms := TurnedNodes(nodes, root, gc, gt, |nodes|);
      TurnRep(nodes, root, gc, gt, |nodes|);
      TurnCells(nodes, root, gc, gt, |nodes|);
      GrandLink(nodes, root, gc, gt, |nodes|);
      var cp, gp := w[(c + 3) % 4].x, w[(c + 2) % 4];
      var y;
      if IsRed(Lr(nodes[s], d0)) {
        y := Rot2x(cp, d0, Cd(d0));
      } else {
        y := Rot1x(cp, d0, Cd(d0));
      }
      assert nodes == ms && y == SiblingRotTree(gc, gt).x;
      aux' := aux;
      if gp.At? {
        nodes := nodes[gp.x := WithLr(nodes[gp.x], d2, y)];
        assert nodes == Relinked(ms, gc.up, y);
      } else {
        aux' := WithLr(aux, d2, y);
      }
      root := CheckFixRoot(root, cp, y);
    }

    /** The array holds a tree with these entries. */
    ghost predicate Represents(m: map<int, int>)
      reads this
    {
      StandsFor(nodes, root, m)
    }

    /** Whether a deletion of `k` would lose entries, read off the root and its right son. */
    function WouldLose(k: int): (b: bool)
      requires Holds()
      reads this
      ensures b == LosesKeys(tree, k)
    {
      if |nodes| <= 1 then
        false
      else
        SonCells(nodes, tree);
        nodes[root].k == k && nodes[root].l == NIL && (nodes[root].red || !IsRed(nodes[root].r))
    }

    /** Deletes key `k`; says whether it was there. A full tree is left alone. Afterwards the array holds the other
        entries exactly when the walk does not end on a root that holds `k` in a tree of more nodes. */
    method Delete(k: int) returns (found: bool)
      requires Holds()
      modifies this
      ensures old(|nodes|) < NIL && !LosesKeys(old(tree), k) ==>
                Holds() && tree == RbDelete.Delete(old(tree), k) && Contents(tree) == Contents(old(tree)) - {k}
      ensures old(|nodes|) < NIL ==> (Represents(Contents(old(tree)) - {k}) <==> !LosesKeys(old(tree), k))
      ensures old(|nodes|) < NIL ==> found == (k in Contents(old(tree)))
      ensures old(|nodes|) == NIL ==> nodes == old(nodes) && root == old(root) && tree == old(tree) && !found
      ensures old(Valid()) && old(|nodes|) < NIL ==> (Valid() <==> !Bad(old(tree), k))
    {
      hide Contents, DeleteWalk, Sorted, Weak, LosesKeys, StandsFor, HasKey, Bad, RbDelete.Delete, Rest;
      var ts := |nodes|;
      ghost var t0 := tree;
      if ts >= NIL {
        return false;
      }
      DeleteFacts(t0, k);
      if ts == 0 {
        Stands(nodes, root, t0);
        return false;
      }
      var last: seq<Win>, c: nat, hit: Win, aux: Nd;
      ghost var f: Focus;
      last, c, hit, aux, f := DeleteLoop(k, t0);
      if |nodes| == 0 {
        tree := Leaf;
        Stands(nodes, root, tree);
        return true;
      }
      WalkKeeps(t0, k, f);
      FoundSlotHas(f.c, k);
      FinishDelete(last, c, hit, aux, k, f, t0);
      if !LosesKeys(t0, k) {
        tree := RbDelete.Delete(t0, k);
        Stands(nodes, root, tree);
      }
      found := hit.At?;
    }

    /** What is done after the walk, `aux` being the father of the root. */
    method FinishDelete(w: seq<Win>, c: nat, found: Win, aux: Nd, k: int, ghost f: Focus, ghost t0: Tree)
      requires 0 < |nodes| <= NIL && RepZ(nodes, root, f.c, f.t) && Distinct(f.c, f.t, |nodes|) && AtBottom(f, k)
      requires |w| == 4 && c < 4 && w[c] == At(f.t.x) && w[(c + 3) % 4] == FatherWin(f.c)
      requires found == if f.t.k == k then At(f.t.x) else FoundWin(f.c, k)
      requires found.At? <==> WalkFound(f, k)
      requires if LosesKeys(t0, k) then WalkFound(f, k) && f == Focus(Top, t0) else WalkEnds(f, k, |nodes|)
      requires Sorted(Ent(t0)) && |Ent(t0)| == |nodes| && Compact(t0, |nodes|)
      modifies this`nodes, this`root
      ensures |nodes| == old(|nodes|) - if WalkFound(f, k) then 1 else 0
      ensures if LosesKeys(t0, k) then !Represents(Contents(t0) - {k})
              else RepZ(nodes, root, Top, SetRed(Rest(f, k, old(|nodes|) - 1), false))
    {
      hide Contents, Sorted, LosesKeys, Injective;
      ghost var ns := nodes;
      if found.At? {
        var relinked := TakeOut(w, c, found, aux, k, f);
        ghost var u := if f.c.Fr? then RbDelete.Unlink(f, k) else t0;
        ghost var pc, s := MoveLast(w[c].x, u);
        if LosesKeys(t0, k) {
          RootLost(ns, root, t0, k, pc, s);
        }
      } else {
        FillRep(nodes, root, f.c, f.t);
      }
      if !LosesKeys(t0, k) {
        BlackRep(nodes, root, Rest(f, k, |ns| - 1));
      }
      BlackRoot();
    }

    /** The root turns black. An index behind the last slot reaches no node of the array. */
    method BlackRoot()
      modifies this`nodes
      ensures nodes == Recoloured(old(nodes), root, false)
    {
      if root < |nodes| {
        nodes := nodes[root := nodes[root].(red := false)];
      }
    }

    /** The last node of the walk is unlinked; its key and data stay, in the node that held `k`. When it is the root,
        only `aux` is relinked. */
    method TakeOut(w: seq<Win>, c: nat, found: Win, aux: Nd, k: int, ghost f: Focus) returns (aux': Nd)
      requires |nodes| <= NIL && RepZ(nodes, root, f.c, f.t) && Distinct(f.c, f.t, |nodes|) && AtBottom(f, k)
      requires |w| == 4 && c < 4 && w[c] == At(f.t.x) && w[(c + 3) % 4] == FatherWin(f.c)
      requires WalkFound(f, k) && found == if f.t.k == k then At(f.t.x) else FoundWin(f.c, k)
      modifies this`nodes
      ensures |nodes| == old(|nodes|)
      ensures if f.c.Fr? then RepZ(nodes, root, Top, RbDelete.Unlink(f, k)) else nodes == old(nodes)
    {
      aux' := aux;
      var x, p := w[c].x, w[(c + 3) % 4];
      ghost var o := if f.t.k == k then f.c else Overwrite(f.c, k, f.t.k, f.t.v);
      ghost var rest := if f.t.l.Leaf? then f.t.r else f.t.l;
      SonCells(nodes, f.t);
      SonIndex(nodes, f.t, Left);
      if f.c.Fr? {
        MoveDataRep(nodes, root, f, k, |nodes|);
      }
      if found.x != x {
        nodes := nodes[found.x := nodes[found.x].(k := nodes[x].k, v := nodes[x].v)];
      }
      var ds := if nodes[x].l == NIL then Right else Left;
      if p.At? {
        ReplaceHole(nodes, root, o, f.t, rest, |nodes|);
        var dt := if nodes[p.x].r == x then Right else Left;
        nodes := nodes[p.x := WithLr(nodes[p.x], dt, Lr(nodes[x], ds))];
        FillRep(nodes, root, o, rest);
      } else {
        var dt := if aux.r == x then Right else Left;
        aux' := WithLr(aux, dt, Lr(nodes[x], ds));
      }
    }

    /** The father of the node in slot `son`, found by searching for its key, and the side it is on. */
    method LocateParent(son: nat, ghost u: Tree) returns (p: nat, d: Dir, ghost pc: Ctx, ghost s: Tree)
      requires RepZ(nodes, root, Top, u) && |nodes| <= NIL && Sorted(Ent(u)) && Uses(u, son) == 1
      ensures Fill(pc, s) == u && RepZ(nodes, root, pc, s) && s.Node? && s.x == son
      ensures if pc.Fr? then p == pc.x && d == pc.d && root != son else p == son && root == son
      ensures if root == son then p == son else p < |nodes| && Lr(nodes[p], d) == son
    {
      SlotKey(nodes, u, son);
      d := Left;
      if root == son {
        pc, s, p := Top, u, son;
        return;
      }
      var cn := root;
      pc, s := Top, u;
      while nodes[cn].l != son && nodes[cn].r != son
        invariant Fill(pc, s) == u && RepZ(nodes, root, pc, s) && Sorted(Ent(s)) && Uses(s, son) > 0
        invariant s.Node? && s.x == cn != son && cn < |nodes|
        decreases s
      {
        SlotSide(nodes, s, son);
        NodeSorted(s);
        d := if nodes[cn].k < nodes[son].k then Right else Left;
        DownRep(nodes, root, pc, s, d);
        DownSame(pc, s, d);
        cn := Lr(nodes[cn], d);
        pc, s := Down(pc, s, d), Child(s, d);
      }
      p, d := cn, if nodes[cn].l == son then Left else Right;
      DownRep(nodes, root, pc, s, d);
      DownSame(pc, s, d);
      pc, s := Down(pc, s, d), Child(s, d);
    }

    /** The node of the last slot moves to the freed slot `to`, and the array gets shorter. `s` is that node in the
        tree `u`, below `pc`. */
    method MoveLast(to: nat, ghost u: Tree) returns (ghost pc: Ctx, ghost s: Tree)
      requires 0 < |nodes| <= NIL && RepZ(nodes, root, Top, u) && Sorted(Ent(u)) && to < |nodes|
      requires to != |nodes| - 1 ==> Uses(u, |nodes| - 1) == 1
      modifies this`nodes, this`root
      ensures |nodes| == old(|nodes|) - 1
      ensures to == |nodes| ==> nodes == old(nodes)[..to] && root == old(root)
      ensures to != |nodes| ==>
                Fill(pc, s) == u && RepZ(old(nodes), old(root), pc, s) && s.Node? && s.x == |nodes|
                && (pc.Fr? ==> pc.x < old(|nodes|))
                && nodes == LastMoved(old(nodes), pc, to) && root == if pc.Fr? then old(root) else to
      ensures (forall i: nat :: Uses(u, i) == if i < old(|nodes|) && i != to then 1 else 0) ==>
                RepZ(nodes, root, Top, Rename(u, |nodes|, to))
    {
      ghost var ns, top := nodes, root;
      var sz := |nodes| - 1;
      pc, s := Top, u;
      if to != sz {
        var p, d;
        p, d, pc, s := LocateParent(sz, u);
        TopLink(nodes, root, pc, s);
        nodes := nodes[to := nodes[sz]];
        nodes := nodes[p := WithLr(nodes[p], d, to)];
        root := CheckFixRoot(root, sz, to);
      }
      nodes := nodes[..sz];
      if forall i: nat :: Uses(u, i) == if i < |ns| && i != to then 1 else 0 {
        LastMovedRep(ns, top, u, pc, s, to);
      }
    }

    method DeleteLoop(k: int, ghost t0: Tree)
      returns (w: seq<Win>, c: nat, found: Win, aux: Nd, ghost f: Focus)
      requires 0 < |nodes| < NIL && RepZ(nodes, root, Top, t0) && Distinct(Top, t0, |nodes|) && t0.Node?
      requires Sorted(Ent(t0)) && |Ent(t0)| == |nodes|
      modifies this`nodes, this`root
      ensures |Ent(t0)| == 1 && t0.k == k ==> nodes == [] && root == NIL
      ensures !(|Ent(t0)| == 1 && t0.k == k) ==>
                |nodes| == old(|nodes|) && f == DeleteWalk(Top, t0, k) && RepZ(nodes, root, f.c, f.t)
                && Distinct(f.c, f.t, |nodes|) && AtBottom(f, k)
                && |w| == 4 && c < 4 && w[c] == At(f.t.x) && w[(c + 3) % 4] == FatherWin(f.c)
                && found == (if f.t.k == k then At(f.t.x) else FoundWin(f.c, k))
    {
      hide Distinct, Push, DeleteWalk, RepC, Rep, Sorted, Balanced, NoRedRed;
      var ts := |nodes|;
      w := [At(root), Null, Null, Aux];
      c, found, aux := 0, Null, Nd(false, NIL, root, 0, 0);
      var d0 := Right;
      ghost var gc, gt := Top, t0;
      f := Focus(gc, gt);
      DeleteInvStart(t0, k);
      TopLink(nodes, root, Top, t0);
      while true
        invariant |nodes| == ts && DeleteInv(w, c, d0, found, gc, gt, k, ts) && RepZ(nodes, root, gc, gt)
        invariant aux.l == NIL && aux.r == root
        invariant DeleteWalk(gc, gt, k) == DeleteWalk(Top, t0, k) && (gc.Top? ==> gt == t0)
        decreases gt
      {
        var x := w[c].x;
        SonIndex(nodes, gt, Left);
        var d := if nodes[x].k < k then Right else Left;
        if nodes[x].k == k {
          if ts == 1 {
            nodes, root := [], NIL;
            return;
          }
          found := w[c];
        }
        w, aux := PushDown(w, c, d, d0, aux, gc, gt);
        f := Push(gc, gt, d);
        DeleteWalkStep(gc, gt, k);
        DeleteInvPush(w, c, found, gc, gt, k, ts);
        SonIndex(nodes, f.t, d);
        var y := Lr(nodes[x], d);
        if y == NIL {
          return;
        }
        DownRep(nodes, root, f.c, f.t, d);
        c := (c + 1) % 4;
        w := w[c := At(y)];
        d0 := d;
        gc, gt := Down(f.c, f.t, d), Child(gt, d);
      }
    }

    /** The index of the node with key `k`, NIL when there is none. The tree is not empty. */
    method Locate(k: int) returns (cn: nat)
      requires Holds() && nodes != []
      ensures cn != NIL <==> k in Contents(tree)
      ensures cn != NIL ==> cn < |nodes| && nodes[cn].k == k && nodes[cn].v == Contents(tree)[k]
    {
      cn := root;
      ghost var c, t := Top, tree;
      while true
        invariant RepZ(nodes, root, c, t) && t.Node? && cn == t.x && Fill(c, t) == tree
        invariant Finds(t, k) == Finds(tree, k)
        decreases t
      {
        SonIndex(nodes, t, if nodes[cn].k < k then Right else Left);
        if nodes[cn].k == k {
          FocusContents(c, t);
          return;
        }
        var d := if nodes[cn].k < k then Right else Left;
        DownRep(nodes, root, c, t, d);
        DownSame(c, t, d);
        cn := Lr(nodes[cn], d);
        if cn == NIL {
          FindsContents(tree, k);
          return;
        }
        c, t := Down(c, t, d), Child(t, d);
      }
    }

    /** The validation walk from slot `i`: 0 on an error, else one more than the black height. Children out of order are
        noticed only when both are. */
    function AssertAux(i: nat, ghost t: Tree): (h: nat)
      requires i == Idx(t) && Rep(nodes, t) && |nodes| <= NIL
      reads this
      ensures h > 0 <==> NoRedRed(t) && Balanced(t) && !BothSwapped(t)
      ensures h > 0 ==> h == Bh(t) + 1
      decreases t
    {
      if i == NIL then
        1
      else
        var n := nodes[i];
        assert Rep(nodes, t.l) && Rep(nodes, t.r);
        if IsRed(i) && (IsRed(n.l) || IsRed(n.r)) then 0
        else if n.l != NIL && nodes[n.l].k >= n.k && n.r != NIL && nodes[n.r].k <= n.k then 0
        else
          var l, r := AssertAux(n.l, t.l), AssertAux(n.r, t.r);
          if l > 0 && r > 0 && l == r then if IsRed(i) then l else l + 1 else 0
    }

    /** On a search tree the validation accepts exactly the red-black trees, with a root of either colour unless it is
        the only node. */
    function Assert(): (ok: bool)
      requires Holds()
      reads this
      ensures ok <==> NoRedRed(tree) && Balanced(tree) && !(|nodes| == 1 && Red(tree))
    {
      SortedNotSwapped(tree);
      SingleNode(tree);
      if |nodes| == 1 && IsRed(root) then false
      else if |nodes| == 1 then true
      else AssertAux(root, tree) > 0
    }
  }
}
