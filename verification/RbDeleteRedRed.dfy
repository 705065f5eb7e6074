/** Red-red edges under deletion, in trees that need not be balanced: when st_delete leaves one. */
module RbDeleteRedRed {
  import opened RbModel
  import opened RbInsert
  import opened RbDelete
  import opened RbDeleteColours

  /** The walk stands on a black node with black sons and takes red from the brother's sons by a rotation at the black
      father; the rotation leaves a red node under the grandfather, which is red and not the root. In a balanced tree
      the father would be red. */
  predicate Clash(c: Ctx, t: Tree) {
    c.Fr? && c.up.Fr? && c.up.up.Fr? && !c.red && c.up.red
    && t.Node? && !t.red && !Red(t.l) && !Red(t.r) && (c.sib.Node? && (Red(c.sib.l) || Red(c.sib.r)))
  }

  predicate WalkClashes(c: Ctx, t: Tree, k: int)
    requires t.Node?
    decreases t
  {
    var d := Toward(t, k);
    var f := Push(c, t, d);
    Clash(c, t) || (Child(f.t, d).Node? && WalkClashes(Down(f.c, f.t, d), Child(t, d), k))
  }

  /** A deletion of `k` would meet such a place. */
  predicate Clashes(t: Tree, k: int) {
    t.Node? && WalkClashes(Top, t, k)
  }

  /** A red-red edge between two nodes of the path. */
  predicate RedRedPath(c: Ctx) {
    c.Fr? && ((c.red && c.up.Fr? && c.up.red && c.up.up.Fr?) || RedRedPath(c.up))
  }

  lemma PushNoRed(c: Ctx, t: Tree, d: Dir)
    requires t.Node? && FocusNoRed(c, t)
    ensures var f := Push(c, t, d);
            if Clash(c, t) then f.c.Fr? && RedRedPath(f.c.up) else FocusNoRed(f.c, f.t)
    ensures var f := Push(c, t, d);
            Child(f.t, d).Leaf? && f.c.Fr? ==> !Red(f.t.l) && !Red(f.t.r)
  {
    if t.red || Red(Child(t, d)) {
    } else if Red(Child(t, Cd(d))) {
      assert NoRedRed(Child(t, Cd(d)));
      assert CNoRed(Push(c, t, d).c, true);
    } else if c.Fr? && c.sib.Node? {
      BrotherNoRed(c, t);
    }
  }

  lemma BrotherNoRed(c: Ctx, t: Tree)
    requires t.Node? && c.Fr? && c.sib.Node? && FocusNoRed(c, t) && !t.red && !Red(t.l) && !Red(t.r)
    ensures var f := PushFromSibling(c, t);
            if Clash(c, t) then f.c.Fr? && RedRedPath(f.c.up) else FocusNoRed(f.c, f.t)
  {
    var s := c.sib;
    var near, far := Child(s, c.d), Child(s, Cd(c.d));
    var f := PushFromSibling(c, t);
    assert NoRedRed(near) && NoRedRed(far);
    assert CNoRed(c.up, c.red);
    assert NoRedRed(t.(red := true));
    if !Red(s.l) && !Red(s.r) {
      assert NoRedRed(SetRed(s, true));
    } else {
      Recolour(far, false);
      assert NoRedRed(f.c.up.sib);
      assert NoRedRed(f.c.sib);
    }
  }

  /** A red-red edge above the walk stays. */
  lemma {:induction false} PathKept(c: Ctx, t: Tree, k: int)
    requires t.Node? && c.Fr? && RedRedPath(c.up)
    ensures RedRedPath(DeleteWalk(c, t, k).c)
    decreases t
  {
    var d := Toward(t, k);
    var f := Push(c, t, d);
    assert f.c.Fr? && RedRedPath(f.c.up);
    if Child(f.t, d).Node? {
      PathKept(Down(f.c, f.t, d), Child(t, d), k);
    }
  }

  lemma {:induction false} WalkNoRed(c: Ctx, t: Tree, k: int)
    requires t.Node? && FocusNoRed(c, t)
    ensures var f := DeleteWalk(c, t, k);
            if WalkClashes(c, t, k) then RedRedPath(f.c)
            else FocusNoRed(f.c, f.t) && (f.c.Fr? ==> !Red(f.t.l) && !Red(f.t.r))
    decreases t
  {
    var d := Toward(t, k);
    var f := Push(c, t, d);
    PushNoRed(c, t, d);
    if Child(f.t, d).Node? {
      var c', t' := Down(f.c, f.t, d), Child(t, d);
      if Clash(c, t) {
        PathKept(c', t', k);
      } else {
        DownNoRed(f.c, f.t, d);
        WalkNoRed(c', t', k);
      }
    }
  }

  lemma {:induction false} PathNotNoRed(c: Ctx, r: bool)
    requires RedRedPath(c)
    ensures !CNoRed(c, r)
  {
    if !(c.red && c.up.Fr? && c.up.red && c.up.up.Fr?) {
      PathNotNoRed(c.up, c.red);
    }
  }

  /** What the walk leaves, before the root turns black. */
  lemma RestNoRed(f: Focus, k: int, last: nat)
    requires f.t.Node? && (WalkFound(f, k) ==> f.c.Fr?)
    requires FocusNoRed(f.c, f.t) && (f.c.Fr? ==> !Red(f.t.l) && !Red(f.t.r))
    ensures NoRedRedBelow(Rest(f, k, last))
  {
    if WalkFound(f, k) {
      var c := if f.t.k == k then f.c else Overwrite(f.c, k, f.t.k, f.t.v);
      var rest := if f.t.l.Leaf? then f.t.r else f.t.l;
      OverwriteColours(f.c, k, f.t.k, f.t.v, 0, 0, false);
      assert CNoRed(f.c, false);
      FillNoRed(c, rest);
      RenameBelow(Unlink(f, k), last, f.t.x);
    } else {
      FillNoRed(f.c, f.t);
    }
  }

  lemma RestRedRed(f: Focus, k: int, last: nat)
    requires f.t.Node? && RedRedPath(f.c)
    ensures !NoRedRedBelow(Rest(f, k, last))
  {
    if WalkFound(f, k) {
      var c := if f.t.k == k then f.c else Overwrite(f.c, k, f.t.k, f.t.v);
      var rest := if f.t.l.Leaf? then f.t.r else f.t.l;
      OverwriteColours(f.c, k, f.t.k, f.t.v, 0, 0, Red(rest));
      PathNotNoRed(f.c, Red(rest));
      FillNoRed(c, rest);
      RenameBelow(Unlink(f, k), last, f.t.x);
    } else {
      PathNotNoRed(f.c, Red(f.t));
      FillNoRed(f.c, f.t);
    }
  }

  /** In a tree without red-red edges, balanced or not, deletion leaves one exactly when its walk clashes. */
  lemma DeleteNoRedIffNoClash(t: Tree, k: int)
    requires NoRedRedBelow(t) && !LosesKeys(t, k)
    ensures NoRedRedBelow(Delete(t, k)) <==> !Clashes(t, k)
  {
    if t.Node? && !(|Ent(t)| == 1 && t.k == k) {
      var f := DeleteWalk(Top, t, k);
      WalkNoRed(Top, t, k);
      RootOnlyWalk(t, k);
      assert |Ent(t)| >= 1;
      if Clashes(t, k) {
        RestRedRed(f, k, |Ent(t)| - 1);
      } else {
        RestNoRed(f, k, |Ent(t)| - 1);
      }
      Recolour(Rest(f, k, |Ent(t)| - 1), false);
    } else if t.Node? {
      assert |Ent(t)| == |Ent(t.l)| + 1 + |Ent(t.r)|;
      assert t.l.Leaf? && t.r.Leaf?;
    }
  }

  /** A balanced tree has no such place. */
  lemma WeakNoClash(t: Tree, k: int)
    requires Weak(t) && Sorted(Ent(t))
    ensures !Clashes(t, k)
  {
    WeakLosesNothing(t, k);
    DeleteNoRedIffNoClash(t, k);
    DeleteStrictIffNotBad(t, k);
  }

}
