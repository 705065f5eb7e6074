/** The shape of the self-balancing tree, as a value.

    `Tree` is the tree that the slots of the array form: every node carries the slot it lives in.
    `Ctx` is the rest of the tree around a node that a top-down walk has reached (the path back to the
    root with the subtrees hanging off it), so `Fill(ctx, t)` is the whole tree. */
module RbModel {
  import opened Sequences

  datatype Dir = Left | Right

  /** The counter-direction. */
  function Cd(d: Dir): Dir {
    if d.Left? then Right else Left
  }

  datatype Tree = Leaf | Node(x: nat, red: bool, l: Tree, k: int, v: int, r: Tree)

  /** `Fr(d, ...)` is the node whose child in direction `d` is the hole and whose other child is `sib`. */
  datatype Ctx = Top | Fr(d: Dir, x: nat, red: bool, k: int, v: int, sib: Tree, up: Ctx)

  /** A node as the in-order reading sees it: its slot, key and data. */
  datatype Entry = Entry(x: nat, k: int, v: int)

  function Child(t: Tree, d: Dir): Tree
    requires t.Node?
  {
    if d.Left? then t.l else t.r
  }

  /** The node with `a` as its child in direction `d` and `b` as the other one. */
  function Mk(d: Dir, x: nat, red: bool, k: int, v: int, a: Tree, b: Tree): Tree {
    if d.Left? then Node(x, red, a, k, v, b) else Node(x, red, b, k, v, a)
  }

  function SetChild(t: Tree, d: Dir, a: Tree): Tree
    requires t.Node?
  {
    if d.Left? then t.(l := a) else t.(r := a)
  }

  function SetRed(t: Tree, red: bool): Tree {
    if t.Node? then t.(red := red) else t
  }

  /** Steps from `t` (a node) to its child in direction `d`. */
  function Down(c: Ctx, t: Tree, d: Dir): Ctx
    requires t.Node?
  {
    Fr(d, t.x, t.red, t.k, t.v, Child(t, Cd(d)), c)
  }

  function Fill(c: Ctx, t: Tree): Tree {
    match c
    case Top => t
    case Fr(d, x, red, k, v, sib, up) => Fill(up, Mk(d, x, red, k, v, t, sib))
  }

  function Red(t: Tree): bool {
    t.Node? && t.red
  }

  /* ---- keys, data and slots ---- */

  function Ent(t: Tree): seq<Entry> {
    match t
    case Leaf => []
    case Node(x, _, l, k, v, r) => Ent(l) + [Entry(x, k, v)] + Ent(r)
  }

  /** What the in-order reading has before (after) the hole. */
  function EntL(c: Ctx): seq<Entry> {
    match c
    case Top => []
    case Fr(d, x, _, k, v, sib, up) => if d.Left? then EntL(up) else EntL(up) + Ent(sib) + [Entry(x, k, v)]
  }

  function EntR(c: Ctx): seq<Entry> {
    match c
    case Top => []
    case Fr(d, x, _, k, v, sib, up) => if d.Left? then [Entry(x, k, v)] + Ent(sib) + EntR(up) else EntR(up)
  }

  /** Strictly ascending keys: the tree is a search tree. */
  predicate Sorted(s: seq<Entry>) {
    forall i, j :: 0 <= i < j < |s| ==> s[i].k < s[j].k
  }

  predicate Below(s: seq<Entry>, k: int) {
    forall i :: 0 <= i < |s| ==> s[i].k < k
  }

  predicate Above(s: seq<Entry>, k: int) {
    forall i :: 0 <= i < |s| ==> k < s[i].k
  }

  /** How many nodes of the tree live in slot `i`. */
  function Uses(t: Tree, i: nat): nat {
    match t
    case Leaf => 0
    case Node(x, _, l, _, _, r) => (if x == i then 1 else 0) + Uses(l, i) + Uses(r, i)
  }

  function CUses(c: Ctx, i: nat): nat {
    match c
    case Top => 0
    case Fr(_, x, _, _, _, sib, up) => (if x == i then 1 else 0) + Uses(sib, i) + CUses(up, i)
  }

  /** Slots 0..n-1 are used, each by one node. */
  ghost predicate Compact(t: Tree, n: nat) {
    forall i: nat :: Uses(t, i) == if i < n then 1 else 0
  }

  lemma {:induction false} FillEnt(c: Ctx, t: Tree)
    ensures Ent(Fill(c, t)) == EntL(c) + Ent(t) + EntR(c)
  {
    if c.Fr? {
      var m := Mk(c.d, c.x, c.red, c.k, c.v, t, c.sib);
      var e := [Entry(c.x, c.k, c.v)];
      FillEnt(c.up, m);
      if c.d.Left? {
        MoveRight(EntL(c.up), Ent(t), e, Ent(c.sib), EntR(c.up));
      } else {
        MoveLeft(EntL(c.up), Ent(c.sib), e, Ent(t), EntR(c.up));
      }
    }
  }

  lemma {:induction false} FillUses(c: Ctx, t: Tree, i: nat)
    ensures Uses(Fill(c, t), i) == CUses(c, i) + Uses(t, i)
  {
    if c.Fr? {
      FillUses(c.up, Mk(c.d, c.x, c.red, c.k, c.v, t, c.sib), i);
    }
  }

  /** The walk for key `k` goes through this context. */
  predicate OnPath(c: Ctx, k: int) {
    c.Fr? ==> (if c.d.Left? then k < c.k else c.k < k) && OnPath(c.up, k)
  }

  lemma {:induction false} OnPathBounds(c: Ctx, k: int)
    requires OnPath(c, k) && Sorted(EntL(c)) && Sorted(EntR(c))
    ensures Below(EntL(c), k) && Above(EntR(c), k)
  {
    if c.Fr? {
      var e := Entry(c.x, c.k, c.v);
      if c.d.Left? {
        assert EntR(c) == ([e] + Ent(c.sib)) + EntR(c.up);
        SortedParts([e] + Ent(c.sib), EntR(c.up));
        OnPathBounds(c.up, k);
        assert EntR(c)[0] == e;
      } else {
        assert EntL(c) == EntL(c.up) + (Ent(c.sib) + [e]);
        SortedParts(EntL(c.up), Ent(c.sib) + [e]);
        OnPathBounds(c.up, k);
        assert EntL(c)[|EntL(c)| - 1] == e;
      }
    }
  }

  lemma SortedParts(a: seq<Entry>, b: seq<Entry>)
    requires Sorted(a + b)
    ensures Sorted(a) && Sorted(b)
    ensures forall i, j :: 0 <= i < |a| && 0 <= j < |b| ==> a[i].k < b[j].k
  {
    forall i, j | 0 <= i < |a| && 0 <= j < |b|
      ensures a[i].k < b[j].k
    {
      assert (a + b)[i] == a[i] && (a + b)[|a| + j] == b[j];
    }
    forall i, j | 0 <= i < j < |a|
      ensures a[i].k < a[j].k
    {
      assert (a + b)[i] == a[i] && (a + b)[j] == a[j];
    }
    forall i, j | 0 <= i < j < |b|
      ensures b[i].k < b[j].k
    {
      assert (a + b)[|a| + i] == b[i] && (a + b)[|a| + j] == b[j];
    }
  }

  /** Sortedness at the focus of a walk: everything left of it is smaller, everything right is larger. */
  lemma WalkBounds(c: Ctx, t: Tree, k: int)
    requires Sorted(Ent(Fill(c, t))) && OnPath(c, k)
    ensures Below(EntL(c), k) && Above(EntR(c), k) && Sorted(Ent(t))
    ensures t.Node? ==> Below(Ent(t.l), t.k) && Above(Ent(t.r), t.k) && Sorted(Ent(t.l)) && Sorted(Ent(t.r))
  {
    FillEnt(c, t);
    SortedParts(EntL(c) + Ent(t), EntR(c));
    SortedParts(EntL(c), Ent(t));
    OnPathBounds(c, k);
    if t.Node? {
      NodeSorted(t);
    }
  }

  lemma NodeSorted(t: Tree)
    requires t.Node? && Sorted(Ent(t))
    ensures Below(Ent(t.l), t.k) && Above(Ent(t.r), t.k) && Sorted(Ent(t.l)) && Sorted(Ent(t.r))
  {
    var e := Entry(t.x, t.k, t.v);
    SortedParts(Ent(t.l) + [e], Ent(t.r));
    SortedParts(Ent(t.l), [e]);
    assert (Ent(t.l) + [e])[|Ent(t.l)|] == e;
  }

  /* ---- colours and black heights ---- */

  /** Recolouring a root changes neither keys nor slots nor balance below it. */
  lemma Recolour(t: Tree, red: bool)
    ensures var u := SetRed(t, red);
            Ent(u) == Ent(t) && (forall i: nat :: Uses(u, i) == Uses(t, i)) && (Balanced(u) <==> Balanced(t))
            && (NoRedRedBelow(u) <==> NoRedRedBelow(t)) && (!red && NoRedRedBelow(t) ==> NoRedRed(u))
            && (t.Node? ==> Bh(u) == Bh(t) + (if t.red then 1 else 0) - (if red then 1 else 0))
  {
  }

  /** No red node has a red child. */
  predicate NoRedRed(t: Tree) {
    t.Node? ==> (t.red ==> !Red(t.l) && !Red(t.r)) && NoRedRed(t.l) && NoRedRed(t.r)
  }

  /** The same with the root counted as black whatever its bit says. */
  predicate NoRedRedBelow(t: Tree) {
    t.Node? ==> NoRedRed(t.l) && NoRedRed(t.r)
  }

  /** Black nodes on the leftmost path. */
  function Bh(t: Tree): nat {
    if t.Leaf? then 0 else Bh(t.l) + if t.red then 0 else 1
  }

  /** Every path down has the same number of black nodes. */
  predicate Balanced(t: Tree) {
    t.Node? ==> Bh(t.l) == Bh(t.r) && Balanced(t.l) && Balanced(t.r)
  }

  /** A red-black tree in the textbook sense. */
  predicate Strict(t: Tree) {
    !Red(t) && NoRedRed(t) && Balanced(t)
  }

  /** What insertion of a present key keeps: the root counts as black, and its bit says red only in a tree of three
      nodes or more. */
  predicate Weak(t: Tree) {
    NoRedRedBelow(t) && Balanced(t) && (Red(t) ==> |Ent(t)| >= 3)
  }

  /** The context around a hole that holds a subtree of black height `h` (`skew` is the difference between the
      black heights of the root's two children, on the side away from the hole). */
  predicate CBal(c: Ctx, h: nat, skew: nat) {
    c.Fr? ==> Balanced(c.sib) && Bh(c.sib) == (if c.up.Top? then h + skew else h)
                && CBal(c.up, h + (if c.red then 0 else 1), skew)
  }

  /** No red-red edge in the context, the edges out of the root not counted; `r`: the hole holds a red node. */
  predicate CNoRed(c: Ctx, r: bool) {
    c.Fr? ==> NoRedRed(c.sib) && (c.red && c.up.Fr? ==> !r && !Red(c.sib)) && CNoRed(c.up, c.red)
  }

  predicate FocusNoRed(c: Ctx, t: Tree) {
    if c.Top? then NoRedRedBelow(t) else NoRedRed(t) && CNoRed(c, Red(t))
  }

  lemma {:induction false} FillNoRed(c: Ctx, t: Tree)
    ensures NoRedRedBelow(Fill(c, t)) <==> FocusNoRed(c, t)
  {
    if c.Fr? {
      var m := Mk(c.d, c.x, c.red, c.k, c.v, t, c.sib);
      FillNoRed(c.up, m);
      assert NoRedRedBelow(m) <==> NoRedRed(t) && NoRedRed(c.sib);
      assert NoRedRed(m) <==> (c.red ==> !Red(t) && !Red(c.sib)) && NoRedRedBelow(m);
      assert c.up.Top? ==> CNoRed(c.up, c.red);
    }
  }

  lemma {:induction false} FillBalanced(c: Ctx, t: Tree)
    ensures Balanced(Fill(c, t)) <==> Balanced(t) && CBal(c, Bh(t), 0)
  {
    if c.Fr? {
      FillBalanced(c.up, Mk(c.d, c.x, c.red, c.k, c.v, t, c.sib));
    }
  }

  /** A context whose root is skewed never holds a balanced tree. */
  lemma {:induction false} FillSkewed(c: Ctx, t: Tree)
    requires c.Fr? && Balanced(t) && CBal(c, Bh(t), 1)
    ensures !Balanced(Fill(c, t))
  {
    if c.up.Fr? {
      FillSkewed(c.up, Mk(c.d, c.x, c.red, c.k, c.v, t, c.sib));
    }
  }

  /** Colour of the root of the whole tree, `r` being the colour of the hole's subtree. */
  function RootRed(c: Ctx, r: bool): bool {
    if c.Top? then r else RootRed(c.up, c.red)
  }

  lemma {:induction false} FillRoot(c: Ctx, t: Tree)
    ensures Red(Fill(c, t)) == RootRed(c, Red(t))
    ensures Fill(c, t).Node? <==> (c.Fr? || t.Node?)
  {
    if c.Fr? {
      FillRoot(c.up, Mk(c.d, c.x, c.red, c.k, c.v, t, c.sib));
    }
  }

}
