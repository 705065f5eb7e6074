/** Colours and black heights under deletion: when st_delete keeps the tree red-black, and when it does not. */
module RbDeleteColours {
  import opened RbModel
  import opened RbInsert
  import opened RbDelete

  /** Invariant of the walk: the father or the node itself is red, unless the father is the root. `skew` is 1 once the
      black heights of the root's two subtrees have come apart. */
  predicate Walking(c: Ctx, t: Tree, skew: nat) {
    t.Node? && FocusNoRed(c, t) && Balanced(t) && CBal(c, Bh(t), skew)
    && (c.Fr? ==> c.red || t.red || c.up.Top?)
    && (skew > 0 ==> c.Fr? && c.up.Fr?)
  }

  /** The walk stands on a black son of the root, nothing below it is red where the walk looks, and the root's other
      son is red. */
  predicate Stuck(c: Ctx, t: Tree) {
    c.Fr? && c.up.Top? && t.Node? && !t.red && !Red(t.l) && !Red(t.r) && Red(c.sib)
  }

  predicate Pushed(f: Focus, d: Dir) {
    f.t.Node? && (f.t.red || Red(Child(f.t, d)) || (f.c.Top? && !Red(f.t.l) && !Red(f.t.r)))
  }

  lemma PushColours(c: Ctx, t: Tree, d: Dir, skew: nat)
    requires Walking(c, t, skew) && !Stuck(c, t)
    ensures var f := Push(c, t, d);
            Pushed(f, d) && FocusNoRed(f.c, f.t) && Balanced(f.t) && CBal(f.c, Bh(f.t), skew)
            && (skew > 0 ==> f.c.Fr? && f.c.up.Fr?)
  {
    var f := Push(c, t, d);
    if t.red || Red(Child(t, d)) {
    } else if Red(Child(t, Cd(d))) {
      assert NoRedRed(Child(t, Cd(d))) && Balanced(Child(t, Cd(d)));
      assert CNoRed(f.c, true);
    } else if c.Fr? {
      assert c.sib.Node?;
      assert !c.sib.red;
      assert CanTake(c, t, skew);
      PushSiblingColours(c, t, skew);
    }
  }

  /** The sibling of a black node with black sons is black: red can come from the sibling's side. */
  predicate CanTake(c: Ctx, t: Tree, skew: nat) {
    Walking(c, t, skew) && c.Fr? && c.sib.Node? && !c.sib.red && !t.red && !Red(t.l) && !Red(t.r)
  }

  predicate Taken(f: Focus, skew: nat) {
    f.t.Node? && f.c.Fr? && NoRedRed(f.t) && CNoRed(f.c, Red(f.t)) && Balanced(f.t) && CBal(f.c, Bh(f.t), skew)
    && (skew > 0 ==> f.c.up.Fr?)
  }

  lemma PushSiblingColours(c: Ctx, t: Tree, skew: nat)
    requires CanTake(c, t, skew)
    ensures Taken(PushFromSibling(c, t), skew)
  {
    var s := c.sib;
    if !Red(s.l) && !Red(s.r) {
      TakeByFlip(c, t, skew);
    } else if Red(Child(s, c.d)) {
      TakeByDoubleRotation(c, t, skew);
    } else {
      TakeByRotation(c, t, skew);
    }
  }

  lemma TakeByFlip(c: Ctx, t: Tree, skew: nat)
    requires CanTake(c, t, skew) && !Red(c.sib.l) && !Red(c.sib.r)
    ensures Taken(TakeFlip(c, t), skew)
  {
    TopMayBeRed(c, t, skew);
    var s, u := SetRed(c.sib, true), t.(red := true);
    assert NoRedRed(s) && Balanced(s) && Bh(s) == Bh(c.sib) - 1;
    assert NoRedRed(u) && Balanced(u) && Bh(u) == Bh(t) - 1;
  }

  lemma TakeByDoubleRotation(c: Ctx, t: Tree, skew: nat)
    requires CanTake(c, t, skew) && Red(Child(c.sib, c.d))
    ensures Taken(TakeDouble(c, t), skew)
  {
    var far, z := Child(c.sib, Cd(c.d)), Child(c.sib, c.d);
    var f := TakeDouble(c, t);
    assert NoRedRed(far) && Balanced(far) && NoRedRed(z) && Balanced(z);
    TopMayBeRed(c, t, skew);
    assert NoRedRed(f.c.up.sib) && Balanced(f.c.up.sib) && Bh(f.c.up.sib) == Bh(t);
  }

  /** The father gives up its red; when it is black it is the root, where a lower black height is fine. */
  lemma TopMayBeRed(c: Ctx, t: Tree, skew: nat)
    requires CanTake(c, t, skew)
    ensures CNoRed(c.up, true) && CNoRed(c.up, false) && CBal(c.up, Bh(t), skew)
  {
    assert CNoRed(c.up, c.red);
    assert CBal(c.up, Bh(t) + if c.red then 0 else 1, skew);
    if !c.red {
      assert c.up.Top?;
    }
  }

  lemma TakeByRotation(c: Ctx, t: Tree, skew: nat)
    requires CanTake(c, t, skew) && Red(Child(c.sib, Cd(c.d))) && !Red(Child(c.sib, c.d))
    ensures Taken(TakeSingle(c, t), skew)
  {
    var far, z := Child(c.sib, Cd(c.d)), Child(c.sib, c.d);
    var f := TakeSingle(c, t);
    assert NoRedRed(far) && Balanced(far) && NoRedRed(z) && Balanced(z);
    TopMayBeRed(c, t, skew);
    BlackSon(far);
    assert f.c.up.sib == SetRed(far, false);
    assert CNoRed(f.c.up, false) && CBal(f.c.up, Bh(t), skew);
  }

  lemma DeleteDown(f: Focus, d: Dir, skew: nat)
    requires Pushed(f, d) && FocusNoRed(f.c, f.t) && Balanced(f.t) && CBal(f.c, Bh(f.t), skew)
    requires skew > 0 ==> f.c.Fr?
    ensures Child(f.t, d).Node? ==> Walking(Down(f.c, f.t, d), Child(f.t, d), skew)
    ensures f.c.Fr? || !Red(f.t) ==> !Stuck(Down(f.c, f.t, d), Child(f.t, d))
  {
    FillNoRed(f.c, f.t);
    FillNoRed(Down(f.c, f.t, d), Child(f.t, d));
    DownSame(f.c, f.t, d);
  }

  /** At the bottom the walk stands on a red leaf (or on a root without red sons). */
  predicate RedBottom(f: Focus, skew: nat) {
    f.t.Node? && FocusNoRed(f.c, f.t) && CBal(f.c, Bh(f.t), skew) && Balanced(f.t)
    && (skew > 0 ==> f.c.Fr?)
    && (if f.c.Fr? then f.t.red && f.t.l.Leaf? && f.t.r.Leaf? else f.t.red || (f.t.l.Leaf? && f.t.r.Leaf?))
  }

  lemma {:induction false} DeleteWalkColours(c: Ctx, t: Tree, k: int, skew: nat)
    requires Walking(c, t, skew) && !Stuck(c, t)
    requires c.Top? && t.red && Child(t, Toward(t, k)).Node? ==>
               !Stuck(Down(c, t, Toward(t, k)), Child(t, Toward(t, k)))
    ensures RedBottom(DeleteWalk(c, t, k), skew)
    decreases t
  {
    var d := Toward(t, k);
    var f := Push(c, t, d);
    PushColours(c, t, d, skew);
    if Child(f.t, d).Node? {
      DeleteDown(f, d, skew);
      DeleteWalkColours(Down(f.c, f.t, d), Child(t, d), k, skew);
    } else {
      assert Bh(Child(f.t, d)) == 0 && Bh(Child(f.t, Cd(d))) == 0;
      assert f.c.Fr? ==> f.t.red;
    }
  }

  /** The one place where deletion goes wrong: the root's bit says red (left so by an insertion of a present key), the
      walk goes to a black son without red sons, and the other son is red. */
  predicate Bad(t: Tree, k: int) {
    Red(t) && Child(t, Toward(t, k)).Node? && Stuck(Down(Top, t, Toward(t, k)), Child(t, Toward(t, k)))
  }

  lemma BadStep(t: Tree, k: int)
    requires Weak(t) && Bad(t, k)
    ensures var d := Toward(t, k);
            var c, s := Down(Top, t, d), Child(t, d);
            var f := Push(c, s, Toward(s, k));
            Push(Top, t, d) == Focus(Top, t) && f == TakeFlip(c, s) && f.t.red
            && FocusNoRed(f.c, f.t) && Balanced(f.t) && CBal(f.c, Bh(f.t), 1) && f.c.Fr?
  {
    var d := Toward(t, k);
    var c, s := Down(Top, t, d), Child(t, d);
    assert NoRedRed(s) && NoRedRed(c.sib) && Balanced(s) && Balanced(c.sib) && Bh(s) == Bh(c.sib);
    assert !Red(c.sib.l) && !Red(c.sib.r);
    var f := TakeFlip(c, s);
    assert Push(c, s, Toward(s, k)) == f;
    assert f.c.sib == c.sib;
    assert Bh(f.t) == Bh(s) - 1 && Balanced(f.t) && NoRedRed(f.t);
    assert CBal(f.c, Bh(f.t), 1) && CNoRed(f.c, true);
  }

  lemma BadWalk(t: Tree, k: int)
    requires Weak(t) && Bad(t, k)
    ensures RedBottom(DeleteWalk(Top, t, k), 1)
  {
    var d := Toward(t, k);
    var c, s := Down(Top, t, d), Child(t, d);
    var d1 := Toward(s, k);
    var f := Push(c, s, d1);
    BadStep(t, k);
    if Child(s, d1).Node? {
      DeleteDown(f, d1, 1);
      DeleteWalkColours(Down(f.c, f.t, d1), Child(s, d1), k, 1);
      assert DeleteWalk(c, s, k) == DeleteWalk(Down(f.c, f.t, d1), Child(s, d1), k);
    } else {
      assert Bh(Child(f.t, d1)) == 0 && Bh(Child(f.t, Cd(d1))) == 0;
      assert DeleteWalk(c, s, k) == f;
    }
    assert DeleteWalk(Top, t, k) == DeleteWalk(c, s, k);
  }

  lemma {:induction false} OverwriteColours(c: Ctx, k: int, nk: int, nv: int, h: nat, skew: nat, r: bool)
    ensures var o := Overwrite(c, k, nk, nv);
            (CBal(o, h, skew) <==> CBal(c, h, skew)) && (CNoRed(o, r) <==> CNoRed(c, r)) && (o.Fr? <==> c.Fr?)
            && (o.Fr? ==> (o.up.Fr? <==> c.up.Fr?))
  {
    if c.Fr? && c.k != k {
      OverwriteColours(c.up, k, nk, nv, h + if c.red then 0 else 1, skew, c.red);
    }
  }

  /** Taking out the red leaf at the bottom changes no black height. */
  lemma UnlinkColours(f: Focus, k: int, skew: nat)
    requires RedBottom(f, skew) && f.c.Fr? && skew <= 1
    ensures NoRedRedBelow(Unlink(f, k)) && (Balanced(Unlink(f, k)) <==> skew == 0)
  {
    var c := if f.t.k == k then f.c else Overwrite(f.c, k, f.t.k, f.t.v);
    OverwriteColours(f.c, k, f.t.k, f.t.v, 0, skew, false);
    assert CNoRed(f.c, false);
    FillNoRed(c, Leaf);
    if skew == 0 {
      FillBalanced(c, Leaf);
    } else {
      FillSkewed(c, Leaf);
    }
  }

  /** A walk that ends on the root of such a tree finds nothing to take out there. */
  lemma WeakLosesNothing(t: Tree, k: int)
    requires Weak(t)
    ensures !LosesKeys(t, k)
  {
    if RootOnly(t, k) {
      assert |Ent(t)| == 1 + |Ent(t.r)| && Bh(t.r) == 0;
      if t.r.Node? {
        assert NoRedRed(t.r) && Balanced(t.r);
        NoBlackNode(t.r.l);
        NoBlackNode(t.r.r);
      }
    }
  }

  lemma NoBlackNode(t: Tree)
    requires Bh(t) == 0 && !Red(t)
    ensures t.Leaf?
  {
  }

  /** The tree a deletion is about to return, before the root is set black. */
  function Rest(f: Focus, k: int, last: nat): Tree
    requires f.t.Node?
  {
    if WalkFound(f, k) then Rename(Unlink(f, k), last, f.t.x) else Fill(f.c, f.t)
  }

  lemma BottomColours(t: Tree, k: int)
    requires Weak(t) && t.Node?
    ensures RedBottom(DeleteWalk(Top, t, k), if Bad(t, k) then 1 else 0)
  {
    if Bad(t, k) {
      BadWalk(t, k);
    } else {
      DeleteWalkColours(Top, t, k, 0);
    }
  }

  lemma KeptColours(f: Focus, skew: nat)
    requires RedBottom(f, skew) && skew <= 1
    ensures NoRedRedBelow(Fill(f.c, f.t)) && (Balanced(Fill(f.c, f.t)) <==> skew == 0)
  {
    FillNoRed(f.c, f.t);
    FillBalanced(f.c, f.t);
    if skew == 1 {
      FillSkewed(f.c, f.t);
    }
  }

  lemma RestColours(f: Focus, k: int, last: nat, skew: nat)
    requires RedBottom(f, skew) && skew <= 1 && (WalkFound(f, k) ==> f.c.Fr?)
    ensures NoRedRedBelow(Rest(f, k, last)) && (Balanced(Rest(f, k, last)) <==> skew == 0)
  {
    if WalkFound(f, k) {
      UnlinkColours(f, k, skew);
      RenameBelow(Unlink(f, k), last, f.t.x);
    } else {
      KeptColours(f, skew);
    }
  }

  /** Deletion yields a red-black tree with a black root exactly when the tree is not in the bad shape for that key. In
      the bad shape the black heights differ afterwards. Everything else (no red-red edge, black root) holds always. */
  lemma DeleteStrictIffNotBad(t: Tree, k: int)
    requires Weak(t) && Sorted(Ent(t))
    ensures Strict(Delete(t, k)) <==> !Bad(t, k)
    ensures !Red(Delete(t, k)) && NoRedRed(Delete(t, k))
  {
    if t.Node? && !(|Ent(t)| == 1 && t.k == k) {
      var f := DeleteWalk(Top, t, k);
      BottomColours(t, k);
      RootOnlyWalk(t, k);
      WeakLosesNothing(t, k);
      RestColours(f, k, |Ent(t)| - 1, if Bad(t, k) then 1 else 0);
      Recolour(Rest(f, k, |Ent(t)| - 1), false);
    } else {
      assert Bad(t, k) ==> |Ent(t)| >= 3;
    }
  }

  lemma RenameBelow(t: Tree, from: nat, to: nat)
    ensures NoRedRedBelow(Rename(t, from, to)) <==> NoRedRedBelow(t)
    ensures Balanced(Rename(t, from, to)) <==> Balanced(t)
  {
    RenameSame(t, from, to);
    if t.Node? {
      RenameSame(t.l, from, to);
      RenameSame(t.r, from, to);
    }
  }

  /** In particular from a red-black tree in the strict sense. */
  lemma DeleteKeepsStrict(t: Tree, k: int)
    requires Strict(t) && Sorted(Ent(t))
    ensures Strict(Delete(t, k))
  {
    DeleteStrictIffNotBad(t, k);
  }

}
