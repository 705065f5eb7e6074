/** Bridges from the walk on trees to the walk on the array, for deletion. */
module DeleteSteps {
  import opened RbModel
  import opened RbInsert
  import opened RbDelete
  import opened RbDeleteColours
  import opened TreeArray
  import opened InsertSteps
  import opened TreeMap
  import opened TreeReading

  /** A rotation at the node in the hole, linked from above. */
  lemma RotRelink(ns: seq<Nd>, root: nat, c: Ctx, t: Tree, d: Dir, n: nat)
    requires RepZ(ns, root, c, t) && Distinct(c, t, n) && t.Node? && Child(t, Cd(d)).Node?
    ensures Lr(ns[t.x], Cd(d)) == Child(t, Cd(d)).x < |ns| && Child(t, Cd(d)).x != t.x
    ensures var ms := Rotated(ns, t.x, d, Cd(d));
            var y := Child(t, Cd(d)).x;
            |ms| == |ns| && (c.Fr? ==> c.x < |ms|)
            && RepZ(Relinked(ms, c, y), if c.Fr? then root else y, c, RotTree(t, d))
            && Distinct(c, RotTree(t, d), n) && RepC(ms, root, c, t.x)
  {
    assert Injective(t);
    RotateCells(ns, t, d);
    RotateRep(ns, t, d);
    var ms := Rotated(ns, t.x, d, Cd(d));
    forall i: nat
      ensures Uses(RotTree(t, d), i) == Uses(t, i)
    {
      RotUses(t, d, i);
    }
    forall j: nat | CUses(c, j) > 0
      ensures Agree(ns, ms, j)
    {
      assert Uses(t, j) == 0;
    }
    RepCFrame(ns, ms, root, c, t.x);
    RelinkZ(ms, root, c, t.x, RotTree(t, d), n);
  }

  lemma RelinkZ(ms: seq<Nd>, root: nat, c: Ctx, i: nat, u: Tree, n: nat)
    requires RepC(ms, root, c, i) && Rep(ms, u) && Distinct(c, u, n) && u.Node?
    ensures c.Fr? ==> c.x < |ms|
    ensures RepZ(Relinked(ms, c, u.x), if c.Fr? then root else u.x, c, u)
  {
    if c.Fr? {
      UpUses(c, u, n);
      RelinkRep(ms, root, c, i, u.x);
      RepSet(ms, u, c.x, WithLr(ms[c.x], c.d, u.x));
    }
  }

  /** A rotation at the child of the node in the hole. */
  lemma RotChildZ(ns: seq<Nd>, root: nat, c: Ctx, t: Tree, d: Dir, n: nat)
    requires RepZ(ns, root, c, t) && Distinct(c, t, n) && t.Node? && Child(t, Cd(d)).Node?
    requires Child(Child(t, Cd(d)), d).Node?
    ensures Lr(ns[t.x], Cd(d)) == Child(t, Cd(d)).x < |ns|
            && Lr(ns[Lr(ns[t.x], Cd(d))], d) == Child(Child(t, Cd(d)), d).x < |ns|
    ensures Child(t, Cd(d)).x != t.x && Child(Child(t, Cd(d)), d).x != t.x
            && Child(Child(t, Cd(d)), d).x != Child(t, Cd(d)).x
    ensures var ms := RotatedChild(ns, t.x, d, Cd(d));
            |ms| == |ns| && RepZ(ms, root, c, RotChildTree(t, d)) && Distinct(c, RotChildTree(t, d), n)
  {
    assert Injective(t);
    NodeUses(t);
    NodeUses(Child(t, Cd(d)));
    RotateChildRep(ns, t, d);
    var ms := RotatedChild(ns, t.x, d, Cd(d));
    forall j: nat | CUses(c, j) > 0
      ensures Agree(ns, ms, j)
    {
      assert Uses(t, j) == 0;
    }
    RepCFrame(ns, ms, root, c, t.x);
    assert Uses(Child(Child(t, Cd(d)), d), Child(Child(t, Cd(d)), d).x) > 0;
  }

  function FatherRedTree(t: Tree): Tree
    requires t.Node?
  {
    Node(t.x, true, SetRed(t.l, false), t.k, t.v, SetRed(t.r, false))
  }

  lemma FatherRedZ(ns: seq<Nd>, root: nat, c: Ctx, t: Tree, n: nat)
    requires RepZ(ns, root, c, t) && Distinct(c, t, n) && t.Node? && |ns| <= NIL
    ensures RepZ(FatherRed(ns, t.x), root, c, FatherRedTree(t)) && |FatherRed(ns, t.x)| == |ns|
    ensures Distinct(c, FatherRedTree(t), n)
  {
    FatherRedRep(ns, t);
    FatherRedFrame(ns, root, c, t, n);
    Recolour(t.l, false);
    Recolour(t.r, false);
  }

  lemma FocusRed(ns: seq<Nd>, root: nat, c: Ctx, t: Tree, red: bool, n: nat)
    requires RepZ(ns, root, c, t) && Distinct(c, t, n) && t.Node? && |ns| <= NIL
    ensures t.x < |ns| && RepZ(Recoloured(ns, t.x, red), root, c, t.(red := red))
    ensures Distinct(c, t.(red := red), n)
  {
    assert Uses(t, t.x) >= 1;
    assert CUses(c, t.x) + Uses(t, t.x) <= 1;
    RecolourRep(ns, t, red);
    RecolourContext(ns, root, c, t.x, t.x, red);
  }

  lemma FatherColour(ns: seq<Nd>, root: nat, c: Ctx, t: Tree, red: bool, n: nat)
    requires RepZ(ns, root, c, t) && Distinct(c, t, n) && c.Fr?
    ensures c.x < |ns| && RepZ(Recoloured(ns, c.x, red), root, c.(red := red), t)
    ensures Distinct(c.(red := red), t, n)
  {
    assert CUses(c, c.x) >= 1;
    assert CUses(c, c.x) + Uses(t, c.x) <= 1;
    RecolourOther(ns, t, c.x, red);
    RecolourOther(ns, c.sib, c.x, red);
    RecolourContext(ns, root, c.up, c.x, c.x, red);
  }

  lemma SiblingColour(ns: seq<Nd>, root: nat, c: Ctx, t: Tree, red: bool, n: nat)
    requires RepZ(ns, root, c, t) && Distinct(c, t, n) && c.Fr? && c.sib.Node? && |ns| <= NIL
    ensures c.sib.x < |ns| && RepZ(Recoloured(ns, c.sib.x, red), root, c.(sib := SetRed(c.sib, red)), t)
    ensures Distinct(c.(sib := SetRed(c.sib, red)), t, n)
  {
    var s := c.sib;
    assert Uses(s, s.x) >= 1;
    assert CUses(c, s.x) == (if c.x == s.x then 1 else 0) + Uses(s, s.x) + CUses(c.up, s.x);
    assert CUses(c, s.x) + Uses(t, s.x) <= 1;
    RecolourOther(ns, t, s.x, red);
    RecolourRep(ns, s, red);
    RecolourContext(ns, root, c.up, c.x, s.x, red);
    Recolour(s, red);
  }

  /* ---- the three ways of pushing red down ---- */

  lemma RotPush(c: Ctx, t: Tree, d: Dir)
    requires t.Node? && !t.red && !Red(Child(t, d)) && Red(Child(t, Cd(d)))
    ensures var f := Push(c, t, d);
            f.c.Fr? && f.c.up == c && f.c.x == Child(t, Cd(d)).x && f.c.d == d && RotTree(t, d) == Above1(f.c, f.t)
  {
  }

  lemma FlipPushRep(ns: seq<Nd>, root: nat, c: Ctx, t: Tree, n: nat)
    requires RepZ(ns, root, c, t) && Distinct(c, t, n) && |ns| <= NIL && t.Node? && c.Fr? && c.sib.Node?
    ensures c.x < |ns| && c.sib.x < |ns| && t.x < |ns|
    ensures var a := Recoloured(ns, c.x, false);
            var b := Recoloured(a, c.sib.x, true);
            var f := TakeFlip(c, t);
            RepZ(Recoloured(b, t.x, true), root, f.c, f.t)
  {
    FatherColour(ns, root, c, t, false, n);
    var c1 := c.(red := false);
    var a := Recoloured(ns, c.x, false);
    SiblingColour(a, root, c1, t, true, n);
    FocusRed(Recoloured(a, c.sib.x, true), root, c1.(sib := SetRed(c.sib, true)), t, true, n);
  }

  /** The father's subtree after the rotations that take red from the sibling's side. */
  function SiblingRotTree(c: Ctx, t: Tree): Tree
    requires t.Node? && c.Fr? && c.sib.Node?
  {
    var p := Above1(c, t);
    if Red(Child(c.sib, c.d)) then RotTree(RotChildTree(p, c.d), c.d) else RotTree(p, c.d)
  }

  lemma SiblingRotation(c: Ctx, t: Tree)
    requires t.Node? && c.Fr? && c.sib.Node? && (Red(c.sib.l) || Red(c.sib.r))
    ensures var f := PushFromSibling(c, t);
            f.c.Fr? && f.c.up.Fr? && f.c.up.up == c.up
            && FatherRedTree(SiblingRotTree(c, t)) == Above1(f.c.up, Above1(f.c, t))
            && f.c.up.d == c.d && f.c.d == c.d && f.c.x == c.x && f.c.up.x == SiblingRotTree(c, t).x
  {
  }

  /** Colours after the rotation, and what the array then holds. */
  lemma SiblingPushRep(ns: seq<Nd>, root: nat, c: Ctx, t: Tree, n: nat)
    requires t.Node? && c.Fr? && c.sib.Node? && (Red(c.sib.l) || Red(c.sib.r)) && |ns| <= NIL
    requires RepZ(ns, root, c.up, SiblingRotTree(c, t)) && Distinct(c.up, SiblingRotTree(c, t), n)
    ensures var q := SiblingRotTree(c, t);
            var f := PushFromSibling(c, t);
            q.x < |ns| && |FatherRed(ns, q.x)| == |ns| && t.x < |ns|
            && FatherRed(ns, q.x)[q.x].red
            && RepZ(Recoloured(FatherRed(ns, q.x), t.x, true), root, f.c, f.t)
  {
    var q := SiblingRotTree(c, t);
    var f := PushFromSibling(c, t);
    SiblingRotation(c, t);
    FatherRedZ(ns, root, c.up, q, n);
    var ms := FatherRed(ns, q.x);
    UpRep(ms, root, f.c.up, Above1(f.c, t));
    UpRep(ms, root, f.c, t);
    UpDistinct(f.c.up, Above1(f.c, t), n);
    UpDistinct(f.c, t, n);
    FocusRed(ms, root, f.c, t, true, n);
  }

  lemma UpDistinct(c: Ctx, t: Tree, n: nat)
    requires c.Fr?
    ensures Distinct(c, t, n) <==> Distinct(c.up, Above1(c, t), n)
  {
    forall i: nat
      ensures CUses(c, i) + Uses(t, i) == CUses(c.up, i) + Uses(Above1(c, t), i)
    {
      UpUses1(c, t, i);
    }
  }

  /* ---- the sliding window of the last three nodes ---- */

  /** The father of the root is an auxiliary node outside the array. */
  function FatherWin(c: Ctx): Win {
    if c.Fr? then At(c.x) else Aux
  }

  predicate DeleteWindow(w: seq<Win>, i: nat, d0: Dir, c: Ctx, t: Tree) {
    |w| == 4 && i < 4 && w[i] == SonWin(t)
    && w[(i + 3) % 4] == FatherWin(c) && d0 == (if c.Fr? then c.d else Right)
    && w[(i + 2) % 4] == if c.Fr? then FatherWin(c.up) else Null
  }

  /** What the code reads at the father and the sibling. */
  lemma FatherCells(ns: seq<Nd>, root: nat, c: Ctx, t: Tree, n: nat)
    requires RepZ(ns, root, c, t) && Distinct(c, t, n) && n == |ns| <= NIL
    ensures c.Fr? ==> c.x < |ns| && Lr(ns[c.x], Cd(c.d)) == Idx(c.sib) && Lr(ns[c.x], c.d) == Idx(t)
    ensures c.Fr? && c.sib.Node? ==>
              c.sib.x < |ns| && Lr(ns[c.sib.x], c.d) == Idx(Child(c.sib, c.d))
              && Lr(ns[c.sib.x], Cd(c.d)) == Idx(Child(c.sib, Cd(c.d)))
    ensures c.Fr? && c.sib.Node? ==>
              (c.sib.l.Node? ==> c.sib.l.x < |ns| && ns[c.sib.l.x].red == c.sib.l.red)
              && (c.sib.r.Node? ==> c.sib.r.x < |ns| && ns[c.sib.r.x].red == c.sib.r.red)
  {
    if c.Fr? && c.sib.Node? {
      assert Rep(ns, c.sib.l) && Rep(ns, c.sib.r);
    }
  }

  /** The grandfather's link that leads to the father. */
  lemma GrandLink(ns: seq<Nd>, root: nat, c: Ctx, t: Tree, n: nat)
    requires RepZ(ns, root, c, t) && Distinct(c, t, n) && n == |ns| <= NIL && c.Fr?
    ensures c.up.Fr? ==> c.up.x < |ns| && (ns[c.up.x].r == c.x) == c.up.d.Right? && root != c.x
    ensures c.up.Top? ==> root == c.x
  {
    assert RepC(ns, root, c.up, c.x);
    if c.up.Fr? {
      assert CUses(c, c.x) + Uses(t, c.x) <= 1;
      assert CUses(c.up, c.x) == 0;
      HoleDirection(ns, root, c.up, c.x);
      RootInContext(ns, root, c.up, c.x);
    }
  }

  /** The rotations at the father, as the array sees them. */
  function TurnedNodes(ns: seq<Nd>, root: nat, c: Ctx, t: Tree, n: nat): seq<Nd>
    requires RepZ(ns, root, c, t) && Distinct(c, t, n) && c.Fr? && c.sib.Node?
  {
    UpRep(ns, root, c, t);
    UpDistinct(c, t, n);
    var p, d := Above1(c, t), c.d;
    if Red(Child(c.sib, d)) then
      RotChildZ(ns, root, c.up, p, d, n);
      RotRelink(RotatedChild(ns, p.x, d, Cd(d)), root, c.up, RotChildTree(p, d), d, n);
      Rotated(RotatedChild(ns, p.x, d, Cd(d)), p.x, d, Cd(d))
    else
      RotRelink(ns, root, c.up, p, d, n);
      Rotated(ns, p.x, d, Cd(d))
  }

  lemma TurnRep(ns: seq<Nd>, root: nat, c: Ctx, t: Tree, n: nat)
    requires RepZ(ns, root, c, t) && Distinct(c, t, n) && c.Fr? && c.sib.Node? && t.Node?
    ensures var ms := TurnedNodes(ns, root, c, t, n);
            var q := SiblingRotTree(c, t);
            |ms| == |ns| && (c.up.Fr? ==> c.up.x < |ms|) && Distinct(c.up, q, n)
            && RepZ(Relinked(ms, c.up, q.x), if c.up.Fr? then root else q.x, c.up, q)
  {
    UpRep(ns, root, c, t);
    UpDistinct(c, t, n);
    var p, d := Above1(c, t), c.d;
    if Red(Child(c.sib, d)) {
      RotChildZ(ns, root, c.up, p, d, n);
      RotRelink(RotatedChild(ns, p.x, d, Cd(d)), root, c.up, RotChildTree(p, d), d, n);
    } else {
      RotRelink(ns, root, c.up, p, d, n);
    }
  }

  /** What the rotations read. */
  lemma TurnCells(ns: seq<Nd>, root: nat, c: Ctx, t: Tree, n: nat)
    requires RepZ(ns, root, c, t) && Distinct(c, t, n) && c.Fr? && c.sib.Node? && t.Node? && n == |ns| <= NIL
    ensures c.x < |ns| && Lr(ns[c.x], Cd(c.d)) == c.sib.x < |ns| && c.sib.x != c.x
    ensures Red(Child(c.sib, c.d)) ==>
              var z := Lr(ns[c.sib.x], c.d);
              z == Child(c.sib, c.d).x < |ns| && z != c.sib.x && z != c.x && ns[z].red
    ensures Child(c.sib, c.d).Node? ==>
              Lr(ns[c.sib.x], c.d) < |ns| && ns[Lr(ns[c.sib.x], c.d)].red == Child(c.sib, c.d).red
    ensures Child(c.sib, c.d).Leaf? ==> Lr(ns[c.sib.x], c.d) == NIL
    ensures SiblingRotTree(c, t).x == if Red(Child(c.sib, c.d)) then Child(c.sib, c.d).x else c.sib.x
  {
    FatherCells(ns, root, c, t, n);
    UpRep(ns, root, c, t);
    UpDistinct(c, t, n);
    if Red(Child(c.sib, c.d)) {
      RotChildZ(ns, root, c.up, Above1(c, t), c.d, n);
    } else {
      RotRelink(ns, root, c.up, Above1(c, t), c.d, n);
    }
  }

  /** The root index names the node in the hole exactly when there is nothing above it. */
  lemma TopSlots(ns: seq<Nd>, root: nat, c: Ctx, t: Tree, n: nat)
    requires RepZ(ns, root, c, t) && Distinct(c, t, n) && t.Node?
    ensures root == t.x <==> c.Top?
  {
    assert Uses(t, t.x) > 0;
    if c.Fr? {
      RootInContext(ns, root, c, t.x);
      assert CUses(c, root) + Uses(t, root) <= 1;
    }
  }

  /* ---- unlinking and moving the last slot ---- */

  function FoundWin(c: Ctx, k: int): Win {
    var x := FoundSlot(c, k);
    if x.Some? then At(x.value) else Null
  }

  lemma {:induction false} FoundSlotUsed(c: Ctx, k: int)
    requires FoundSlot(c, k).Some?
    ensures CUses(c, FoundSlot(c, k).value) > 0
  {
    if c.k != k {
      FoundSlotUsed(c.up, k);
    }
  }

  function DataMoved(ns: seq<Nd>, x: nat, k: int, v: int): seq<Nd> {
    if x < |ns| then ns[x := ns[x].(k := k, v := v)] else ns
  }

  /** Key and data of the last node of the walk go to the node that holds `k`. */
  lemma {:induction false} OverwriteRep(ns: seq<Nd>, root: nat, c: Ctx, i: nat, k: int, nk: int, nv: int)
    requires RepC(ns, root, c, i) && FoundSlot(c, k).Some? && forall j: nat :: CUses(c, j) <= 1
    ensures FoundSlot(c, k).value < |ns|
    ensures RepC(DataMoved(ns, FoundSlot(c, k).value, nk, nv), root, Overwrite(c, k, nk, nv), i)
  {
    var x := FoundSlot(c, k).value;
    FoundSlotUsed(c, k);
    assert CUses(c, x) == (if c.x == x then 1 else 0) + Uses(c.sib, x) + CUses(c.up, x);
    if c.k == k {
      RepSet(ns, c.sib, x, ns[x].(k := nk, v := nv));
      RepCSet(ns, root, c.up, c.x, x, ns[x].(k := nk, v := nv));
    } else {
      forall j: nat
        ensures CUses(c.up, j) <= 1
      {
        assert CUses(c, j) <= 1;
      }
      FoundSlotUsed(c.up, k);
      OverwriteRep(ns, root, c.up, c.x, k, nk, nv);
      RepSet(ns, c.sib, x, ns[x].(k := nk, v := nv));
    }
  }

  lemma {:induction false} OverwriteUses(c: Ctx, k: int, nk: int, nv: int, i: nat)
    ensures CUses(Overwrite(c, k, nk, nv), i) == CUses(c, i)
    ensures var o := Overwrite(c, k, nk, nv); (o.Fr? <==> c.Fr?) && (c.Fr? ==> o.x == c.x && o.d == c.d)
  {
    if c.Fr? && c.k != k {
      OverwriteUses(c.up, k, nk, nv, i);
    }
  }

  /** Putting another subtree in the hole. */
  lemma ReplaceHole(ns: seq<Nd>, root: nat, c: Ctx, t: Tree, rest: Tree, n: nat)
    requires RepZ(ns, root, c, t) && Distinct(c, t, n) && c.Fr? && t.Node? && n == |ns| <= NIL
    requires rest == t.l || rest == t.r
    ensures c.x < |ns| && (ns[c.x].r == t.x) == c.d.Right?
    ensures RepZ(Relinked(ns, c, Idx(rest)), root, c, rest)
  {
    assert Uses(t, t.x) > 0;
    assert CUses(c, t.x) == 0;
    HoleDirection(ns, root, c, t.x);
    assert CUses(c, c.x) >= 1;
    assert CUses(c, c.x) + Uses(t, c.x) <= 1;
    RelinkRep(ns, root, c, t.x, Idx(rest));
    RepUsesNode(t, c.x);
    RepSet(ns, rest, c.x, WithLr(ns[c.x], c.d, Idx(rest)));
  }

  lemma {:induction false} SlotKey(ns: seq<Nd>, t: Tree, i: nat)
    requires Rep(ns, t) && Uses(t, i) > 0
    ensures i < |ns| && HasKey(Ent(t), ns[i].k)
  {
    HasKeyNode(t, ns[t.x].k);
    if t.x != i {
      if Uses(t.l, i) > 0 {
        SlotKey(ns, t.l, i);
      } else {
        SlotKey(ns, t.r, i);
      }
      HasKeyNode(t, ns[i].k);
    }
  }

  /** The key of a node below tells the side it is on. */
  lemma SlotSide(ns: seq<Nd>, t: Tree, i: nat)
    requires t.Node? && Rep(ns, t) && Sorted(Ent(t)) && Uses(t, i) > 0 && t.x != i
    ensures i < |ns| && Uses(Child(t, if t.k < ns[i].k then Right else Left), i) > 0
  {
    NodeSorted(t);
    if Uses(t.l, i) > 0 {
      SlotKey(ns, t.l, i);
    }
    if Uses(t.r, i) > 0 {
      SlotKey(ns, t.r, i);
    }
  }

  lemma {:induction false} RenameAbsent(t: Tree, from: nat, to: nat)
    requires Uses(t, from) == 0
    ensures Rename(t, from, to) == t
  {
    if t.Node? {
      RenameAbsent(t.l, from, to);
      RenameAbsent(t.r, from, to);
    }
  }

  lemma {:induction false} RenameFill(c: Ctx, t: Tree, from: nat, to: nat)
    requires CUses(c, from) == 0
    ensures Rename(Fill(c, t), from, to) == Fill(c, Rename(t, from, to))
  {
    if c.Fr? {
      RenameAbsent(c.sib, from, to);
      RenameFill(c.up, Above1(c, t), from, to);
    }
  }

  lemma {:induction false} RenameSelf(t: Tree, i: nat)
    ensures Rename(t, i, i) == t
  {
    if t.Node? {
      RenameSelf(t.l, i);
      RenameSelf(t.r, i);
    }
  }

  /** A node copied to a free slot, with the link to it updated. */
  lemma MoveRep(ns: seq<Nd>, root: nat, c: Ctx, s: Tree, to: nat)
    requires RepZ(ns, root, c, s) && s.Node? && to < |ns|
    requires CUses(c, to) + Uses(s, to) == 0 && CUses(c, s.x) == 0 && Uses(s, s.x) == 1
    requires forall i: nat :: CUses(c, i) + Uses(s, i) <= 1
    ensures s.x < |ns| && (c.Fr? ==> c.x < |ns|)
    ensures var a := ns[to := ns[s.x]];
            RepZ(Relinked(a, c, to), if c.Fr? then root else to, Top, Rename(Fill(c, s), s.x, to))
    ensures forall i: nat :: Uses(Rename(Fill(c, s), s.x, to), i)
                          == if i == s.x then 0 else if i == to then 1 else CUses(c, i) + Uses(s, i)
  {
    var a := ns[to := ns[s.x]];
    var u := s.(x := to);
    RepSet(ns, s.l, to, ns[s.x]);
    RepSet(ns, s.r, to, ns[s.x]);
    RepCSet(ns, root, c, s.x, to, ns[s.x]);
    assert Rep(a, u);
    assert c.Fr? ==> CUses(c, c.x) >= 1 && CUses(c, c.x) + Uses(s, c.x) <= 1;
    RelinkRep(a, root, c, s.x, to);
    if c.Fr? {
      assert c.x != to && Uses(u, c.x) == 0;
      RepSet(a, u, c.x, WithLr(a[c.x], c.d, to));
    }
    RenameFill(c, s, s.x, to);
    RenameNode(s, to);
    FillRep(Relinked(a, c, to), if c.Fr? then root else to, c, u);
    forall i: nat
      ensures Uses(Rename(Fill(c, s), s.x, to), i)
           == if i == s.x then 0 else if i == to then 1 else CUses(c, i) + Uses(s, i)
    {
      RenameUses(Fill(c, s), s.x, to, i);
      FillUses(c, s, i);
      FillUses(c, s, s.x);
    }
  }

  lemma RenameNode(s: Tree, to: nat)
    requires s.Node? && Uses(s, s.x) == 1
    ensures Rename(s, s.x, to) == s.(x := to)
  {
    RenameAbsent(s.l, s.x, to);
    RenameAbsent(s.r, s.x, to);
  }

  /** Cutting off slots that are not used. */
  lemma CutRep(ns: seq<Nd>, root: nat, t: Tree, n: nat)
    requires RepZ(ns, root, Top, t) && n <= |ns| && forall i: nat :: i >= n ==> Uses(t, i) == 0
    ensures RepZ(ns[..n], root, Top, t)
  {
    RepFrame(ns, ns[..n], t);
  }

  /** The node of the last slot copied to slot `to`, its father's link following it, and the last slot cut off. */
  function LastMoved(ns: seq<Nd>, c: Ctx, to: nat): seq<Nd>
    requires to < |ns| && (c.Fr? ==> c.x < |ns|)
  {
    Relinked(ns[to := ns[|ns| - 1]], c, to)[..|ns| - 1]
  }

  lemma LastMovedRep(ns: seq<Nd>, root: nat, u: Tree, c: Ctx, s: Tree, to: nat)
    requires RepZ(ns, root, Top, u) && to < |ns|
    requires forall i: nat :: Uses(u, i) == if i < |ns| && i != to then 1 else 0
    requires to != |ns| - 1 ==> Fill(c, s) == u && RepZ(ns, root, c, s) && s.Node? && s.x == |ns| - 1
    ensures to != |ns| - 1 && c.Fr? ==> c.x < |ns|
    ensures if to == |ns| - 1 then RepZ(ns[..to], root, Top, Rename(u, to, to))
            else RepZ(LastMoved(ns, c, to), if c.Fr? then root else to, Top, Rename(u, |ns| - 1, to))
  {
    hide RepZ, Rename, Fill, Uses, CUses;
    if to == |ns| - 1 {
      RenameSelf(u, to);
      CutRep(ns, root, u, to);
    } else {
      SplitUses(c, s, u);
      MoveRep(ns, root, c, s, to);
      CutRep(Relinked(ns[to := ns[s.x]], c, to), if c.Fr? then root else to, Rename(u, s.x, to), |ns| - 1);
    }
  }

  /** The root of the new tree turns black. */
  lemma BlackRep(ns: seq<Nd>, root: nat, u: Tree)
    requires RepZ(ns, root, Top, u) && |ns| <= NIL && Injective(u)
    ensures RepZ(Recoloured(ns, root, false), root, Top, SetRed(u, false))
  {
    assert u.Node? ==> Uses(u, u.x) >= 1;
    RecolourRep(ns, u, false);
  }

  /* ---- the loop invariant that does not speak of the array ---- */

  ghost predicate DeleteInv(w: seq<Win>, i: nat, d0: Dir, found: Win, c: Ctx, t: Tree, k: int, n: nat) {
    Distinct(c, t, n) && t.Node? && OnDeletePath(c, k) && Sorted(Reading(c, t)) && |Reading(c, t)| == n
    && DeleteWindow(w, i, d0, c, t) && found == FoundWin(c, k)
  }

  lemma DeleteInvStart(t: Tree, k: int)
    requires t.Node? && Distinct(Top, t, |Ent(t)|) && Sorted(Ent(t))
    ensures DeleteInv([At(t.x), Null, Null, Aux], 0, Right, Null, Top, t, k, |Ent(t)|)
  {
    assert Reading(Top, t) == Ent(t);
  }

  /** One round of the search loop. */
  lemma DeleteWalkStep(c: Ctx, t: Tree, k: int)
    requires t.Node?
    ensures var d := Toward(t, k);
            var f := Push(c, t, d);
            DeleteWalk(c, t, k) == if Child(t, d).Leaf? then f else DeleteWalk(Down(f.c, f.t, d), Child(t, d), k)
  {
  }

  lemma PushKeeps(c: Ctx, t: Tree, k: int, n: nat)
    requires t.Node? && Distinct(c, t, n) && OnDeletePath(c, k) && Sorted(Reading(c, t)) && |Reading(c, t)| == n
    ensures var f := Push(c, t, Toward(t, k));
            Distinct(f.c, f.t, n) && OnDeletePath(f.c, k) && Sorted(Reading(f.c, f.t)) && |Reading(f.c, f.t)| == n
            && FoundWin(f.c, k) == FoundWin(c, k)
  {
    var d := Toward(t, k);
    var f := Push(c, t, d);
    PushReading(c, t, d);
    PushPath(c, t, k);
    PushFound(c, t, k);
    forall j: nat
      ensures CUses(f.c, j) + Uses(f.t, j) == if j < n then 1 else 0
    {
      PushUses(c, t, d, j);
    }
  }

  lemma DownKeeps(c: Ctx, t: Tree, k: int, n: nat)
    requires t.Node? && Distinct(c, t, n) && OnDeletePath(c, k) && Sorted(Reading(c, t)) && |Reading(c, t)| == n
    ensures var d := Toward(t, k);
            var c', t' := Down(c, t, d), Child(t, d);
            Distinct(c', t', n) && OnDeletePath(c', k) && Sorted(Reading(c', t')) && |Reading(c', t')| == n
            && FoundWin(c', k) == (if t.k == k then At(t.x) else FoundWin(c, k))
  {
    var d := Toward(t, k);
    DownDistinct(c, t, d, n);
    DownSame(c, t, d);
    FillEnt(c, t);
    FillEnt(Down(c, t, d), Child(t, d));
  }

  /** After the push, with `w` and `found` already brought up to date. */
  lemma DeleteInvPush(w: seq<Win>, i: nat, found: Win, c: Ctx, t: Tree, k: int, n: nat)
    requires t.Node? && Distinct(c, t, n) && OnDeletePath(c, k) && Sorted(Reading(c, t)) && |Reading(c, t)| == n
    requires var f := Push(c, t, Toward(t, k));
             |w| == 4 && i < 4 && w[i] == At(t.x) && w[(i + 3) % 4] == FatherWin(f.c)
    requires found == if t.k == k then At(t.x) else FoundWin(c, k)
    ensures var d := Toward(t, k);
            var f := Push(c, t, d);
            Distinct(f.c, f.t, n) && OnDeletePath(f.c, k) && Sorted(Reading(f.c, f.t))
            && found == (if f.t.k == k then At(f.t.x) else FoundWin(f.c, k))
            && (Child(f.t, d).Node? ==>
              DeleteInv(w[(i + 1) % 4 := At(Child(f.t, d).x)], (i + 1) % 4, d, found, Down(f.c, f.t, d), Child(f.t,
                d), k, n))
  {
    var f := Push(c, t, Toward(t, k));
    PushKeeps(c, t, k, n);
    DownKeeps(f.c, f.t, k, n);
  }

  lemma MoveDataRep(ns: seq<Nd>, root: nat, f: Focus, k: int, n: nat)
    requires n == |ns| <= NIL && RepZ(ns, root, f.c, f.t) && Distinct(f.c, f.t, n) && f.t.Node? && f.c.Fr?
    requires f.t.k != k ==> CHas(f.c, k)
    ensures var o := if f.t.k == k then f.c else Overwrite(f.c, k, f.t.k, f.t.v);
            var found := if f.t.k == k then At(f.t.x) else FoundWin(f.c, k);
            found.At? && found.x < n && (found.x == f.t.x <==> f.t.k == k)
            && RepZ(if f.t.k == k then ns else DataMoved(ns, found.x, f.t.k, f.t.v), root, o, f.t)
            && Distinct(o, f.t, n) && o.Fr? && o.x == f.c.x && o.d == f.c.d
  {
    assert Uses(f.t, f.t.x) > 0;
    if f.t.k != k {
      FoundSlotHas(f.c, k);
      var x := FoundSlot(f.c, k).value;
      FoundSlotUsed(f.c, k);
      assert CUses(f.c, x) + Uses(f.t, x) <= 1;
      assert forall j: nat :: CUses(f.c, j) + Uses(f.t, j) <= 1;
      OverwriteRep(ns, root, f.c, f.t.x, k, f.t.k, f.t.v);
      RepSet(ns, f.t, x, ns[x].(k := f.t.k, v := f.t.v));
      forall j: nat
        ensures CUses(Overwrite(f.c, k, f.t.k, f.t.v), j) == CUses(f.c, j)
      {
        OverwriteUses(f.c, k, f.t.k, f.t.v, j);
      }
      OverwriteUses(f.c, k, f.t.k, f.t.v, 0);
    }
  }

  lemma SplitUses(c: Ctx, s: Tree, u: Tree)
    requires Fill(c, s) == u
    ensures forall i: nat :: CUses(c, i) + Uses(s, i) == Uses(u, i)
    ensures s.Node? ==> Uses(s, s.x) >= 1
  {
    forall i: nat
      ensures CUses(c, i) + Uses(s, i) == Uses(u, i)
    {
      FillUses(c, s, i);
    }
  }

  /** What the last steps of a deletion that loses nothing start from, `n` being the size. */
  ghost predicate WalkEnds(f: Focus, k: int, n: nat) {
    0 < n && f.t.Node? && Injective(Rest(f, k, n - 1))
    && (WalkFound(f, k) ==>
      f.c.Fr? && Sorted(Ent(Unlink(f, k))) && f.t.x < n
      && forall i: nat :: Uses(Unlink(f, k), i) == if i < n && i != f.t.x then 1 else 0)
  }

  /** The state in which the walk leaves a tree that is more than the one node to be deleted. */
  lemma WalkKeeps(t: Tree, k: int, f: Focus)
    requires Sorted(Ent(t)) && t.Node? && Compact(t, |Ent(t)|) && !(|Ent(t)| == 1 && t.k == k)
    requires f == DeleteWalk(Top, t, k)
    ensures AtBottom(f, k) && (WalkFound(f, k) <==> HasKey(Ent(t), k))
    ensures if LosesKeys(t, k) then WalkFound(f, k) && f == Focus(Top, t) else WalkEnds(f, k, |Ent(t)|)
  {
    RootOnlyWalk(t, k);
    DeleteBottom(t, k);
    if !RootOnly(t, k) {
      RestKept(t, k, f);
    }
  }

  lemma RestKept(t: Tree, k: int, f: Focus)
    requires Sorted(Ent(t)) && t.Node? && Compact(t, |Ent(t)|) && !RootOnly(t, k) && f == DeleteWalk(Top, t, k)
    ensures WalkEnds(f, k, |Ent(t)|)
  {
    DeleteBottom(t, k);
    RootOnlyWalk(t, k);
    assert Uses(f.t, f.t.x) >= 1;
    DeleteWalkUses(Top, t, k, f.t.x);
    if WalkFound(f, k) {
      UnlinkRemoves(f, k);
      forall i: nat
        ensures Uses(Unlink(f, k), i) == if i < |Ent(t)| && i != f.t.x then 1 else 0
      {
        DeleteWalkUses(Top, t, k, i);
        UnlinkUses(f, k, i);
      }
    }
    var rest := Rest(f, k, |Ent(t)| - 1);
    forall i: nat
      ensures Uses(rest, i) <= 1
    {
      DeleteUses(t, k, f, i);
    }
  }

  /* ---- deletion of a key that only the root holds ---- */

  lemma {:induction false} ContextSize(c: Ctx, s: Tree)
    ensures |Ent(Fill(c, s))| >= |Ent(s)| + if c.Fr? then 1 + if c.up.Fr? then 1 else 0 else 0
  {
    if c.Fr? {
      ContextSize(c.up, Above1(c, s));
    }
  }

  /** The root holds `k` and is not pushed down. Its slot is given up or filled with the last one, and the root index
      still names it: no tree with the remaining entries can be read from the array. */
  lemma RootLost(ns: seq<Nd>, root: nat, t: Tree, k: int, c: Ctx, s: Tree)
    requires RepZ(ns, root, Top, t) && |ns| == |Ent(t)| <= NIL && Compact(t, |ns|) && Sorted(Ent(t)) && LosesKeys(t, k)
    requires t.x != |ns| - 1 ==> Fill(c, s) == t && RepZ(ns, root, c, s) && s.Node? && s.x == |ns| - 1
    ensures t.x < |ns| && (t.x != |ns| - 1 ==> c.Fr? && c.x < |ns|)
    ensures t.x == |ns| - 1 ==> !StandsFor(Recoloured(ns[..t.x], root, false), root, Contents(t) - {k})
    ensures t.x != |ns| - 1 ==> !StandsFor(Recoloured(LastMoved(ns, c, t.x), root, false), root, Contents(t) - {k})
  {
    hide Contents, StandsFor, Compact, Sorted;
    if t.x == |ns| - 1 {
      NoTree(ns[..t.x], root, Contents(t) - {k});
    } else {
      assert c.Fr?;
      if c.up.Top? {
        NoTree(Recoloured(LastMoved(ns, c, t.x), root, false), root, Contents(t) - {k});
      } else {
        RootHidden(ns, root, t, k, c, s);
      }
    }
  }

  lemma RootHidden(ns: seq<Nd>, root: nat, t: Tree, k: int, c: Ctx, s: Tree)
    requires RepZ(ns, root, Top, t) && |ns| <= NIL && Compact(t, |ns|) && Sorted(Ent(t)) && t.Node? && t.k == k
    requires Fill(c, s) == t && RepZ(ns, root, c, s) && s.Node? && s.x == |ns| - 1 && c.Fr? && c.up.Fr?
    ensures c.x < |ns| && t.x < |ns|
    ensures !StandsFor(Recoloured(LastMoved(ns, c, t.x), root, false), root, Contents(t) - {k})
  {
    RootCovered(ns, root, t, c, s);
    var ms := Recoloured(LastMoved(ns, c, t.x), root, false);
    assert |ms| <= NIL;
    var u := s.(x := t.x, red := false);
    ContextSize(c, s);
    HasKeyNode(t, k);
    assert |Ent(u)| + 2 <= |Ent(t)|;
    hide *;
    TooSmall(t, k, u);
    StandsOnlyFor(ms, root, u, Contents(t) - {k});
  }

  /** The root's slot now holds the node of the last slot: the tree below it is all that is left. */
  lemma RootCovered(ns: seq<Nd>, root: nat, t: Tree, c: Ctx, s: Tree)
    requires RepZ(ns, root, Top, t) && |ns| <= NIL && Compact(t, |ns|) && t.Node?
    requires Fill(c, s) == t && RepZ(ns, root, c, s) && s.Node? && s.x == |ns| - 1 && c.Fr? && c.up.Fr?
    ensures c.x < |ns|
    ensures RepZ(Recoloured(LastMoved(ns, c, t.x), root, false), root, Top, s.(x := t.x, red := false))
  {
    var ms := Recoloured(LastMoved(ns, c, t.x), root, false);
    SplitUses(c, s, t);
    RootInContext(ns, root, c.up, c.x);
    assert CUses(c, c.x) == 1 + Uses(c.sib, c.x) + CUses(c.up, c.x);
    assert CUses(c, c.x) + Uses(s, c.x) <= 1;
    assert CUses(c, t.x) + Uses(s, t.x) <= 1 && CUses(c, s.x) + Uses(s, s.x) <= 1;
    forall i: nat | Uses(s.l, i) > 0 || Uses(s.r, i) > 0
      ensures Agree(ns, ms, i)
    {
      assert CUses(c, i) + Uses(s, i) == Uses(t, i);
    }
    RepFrame(ns, ms, s.l);
    RepFrame(ns, ms, s.r);
  }

  /** What is known of the tree after a deletion. */
  lemma DeleteFacts(t: Tree, k: int)
    requires Sorted(Ent(t)) && Compact(t, |Ent(t)|)
    ensures k in Contents(t) <==> HasKey(Ent(t), k)
    ensures Weak(t) ==> !LosesKeys(t, k) && (Weak(Delete(t, k)) <==> !Bad(t, k))
    ensures var u := Delete(t, k);
            !LosesKeys(t, k) ==>
              Contents(u) == Contents(t) - {k} && Sorted(Ent(u)) && Compact(u, |Ent(u)|)
              && |Ent(u)| == |Ent(t)| - if HasKey(Ent(t), k) then 1 else 0
    ensures if |Ent(t)| == 0 then t.Leaf? && Delete(t, k) == t && !LosesKeys(t, k)
            else if |Ent(t)| == 1 && t.k == k then Delete(t, k) == Leaf && !LosesKeys(t, k) && HasKey(Ent(t), k)
            else Delete(t, k) == SetRed(Rest(DeleteWalk(Top, t, k), k, |Ent(t)| - 1), false)
  {
    hide Contents, Sorted, Compact, Weak, Bad, LosesKeys, Delete, HasKey, Ent;
    DeleteShape(t, k);
    ContentsKeys(t, k);
    if Weak(t) {
      WeakAfter(t, k);
    }
    if !LosesKeys(t, k) {
      DeleteContents(t, k);
      DeleteRemoves(t, k);
      DeleteCompact(t, k);
    }
  }

  lemma ContentsKeys(t: Tree, k: int)
    ensures k in Contents(t) <==> HasKey(Ent(t), k)
  {
    DictKeys(Ent(t), k);
  }

  lemma WeakAfter(t: Tree, k: int)
    requires Weak(t) && Sorted(Ent(t))
    ensures !LosesKeys(t, k) && (Weak(Delete(t, k)) <==> !Bad(t, k))
  {
    hide Delete, Bad, LosesKeys;
    WeakLosesNothing(t, k);
    DeleteStrictIffNotBad(t, k);
  }

  lemma DeleteShape(t: Tree, k: int)
    ensures if |Ent(t)| == 0 then t.Leaf? && Delete(t, k) == t && !LosesKeys(t, k)
            else if |Ent(t)| == 1 && t.k == k then Delete(t, k) == Leaf && !LosesKeys(t, k) && HasKey(Ent(t), k)
            else Delete(t, k) == SetRed(Rest(DeleteWalk(Top, t, k), k, |Ent(t)| - 1), false)
  {
    EmptyOrNode(t);
    if t.Node? {
      HasKeyNode(t, k);
    }
  }

  lemma EmptyOrNode(t: Tree)
    ensures t.Leaf? <==> |Ent(t)| == 0
  {
  }

}
