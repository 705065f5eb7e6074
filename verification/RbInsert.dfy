/** Top-down insertion (st_insert_rw) as a function on the walked tree, and what it does to keys, slots, colours
    and black heights. */
module RbInsert {
  import opened RbModel
  import opened Sequences
  import opened Wrappers

  /** The rewrite callback: new data from the data already there (if any) and the data passed in. */
  type Rewrite = (Option<int>, int) -> int

  datatype Focus = Focus(c: Ctx, t: Tree)

  /** Direction of the walk for `k` at a node that does not hold `k`. */
  function Toward(t: Tree, k: int): Dir
    requires t.Node?
  {
    if t.k < k then Right else Left
  }

  /** Two red sons become a red father with black sons. */
  function Flip(t: Tree): Tree {
    if t.Node? && Red(t.l) && Red(t.r)
    then Node(t.x, true, SetRed(t.l, false), t.k, t.v, SetRed(t.r, false))
    else t
  }

  predicate DoubleRed(c: Ctx, t: Tree) {
    Red(t) && c.Fr? && c.red && c.up.Fr?
  }

  /** Rotates a red node under a red father: a single rotation when the two last steps went the same way, a double
      rotation otherwise. The walk stays at the same node. */
  function Fix(c: Ctx, t: Tree): Focus {
    if !DoubleRed(c, t) then
      Focus(c, t)
    else
      var g := c.up;
      if c.d == g.d then
        var down := Mk(g.d, g.x, true, g.k, g.v, c.sib, g.sib);
        Focus(Fr(c.d, c.x, false, c.k, c.v, down, g.up), t)
      else
        var a := Mk(c.d, c.x, true, c.k, c.v, Child(t, g.d), c.sib);
        var b := Mk(g.d, g.x, true, g.k, g.v, Child(t, c.d), g.sib);
        Focus(g.up, Mk(g.d, t.x, false, t.k, t.v, a, b))
  }

  function BlackenRoot(c: Ctx): Ctx {
    if c.Top? then c else if c.up.Top? then c.(red := false) else c.(up := BlackenRoot(c.up))
  }

  /** Comparisons the walk for `k` makes below this node. */
  function PathLen(t: Tree, k: int): nat {
    if t.Leaf? then 0 else if t.k == k then 1 else 1 + PathLen(Child(t, Toward(t, k)), k)
  }

  function Measure(c: Ctx, t: Tree, k: int): nat {
    2 * PathLen(t, k) + if DoubleRed(c, Flip(t)) then 1 else 0
  }

  /** A double rotation puts the walk back above a node it has left; it still terminates. */
  lemma StepDecreases(c: Ctx, t: Tree, k: int)
    requires t.Node? && OnPath(c, k)
    ensures var f := Fix(c, Flip(t)); f.t.Node? && f.t.k == t.k && OnPath(f.c, k)
    ensures k != t.k ==>
              var f := Fix(c, Flip(t));
              var d := Toward(f.t, k);
              OnPath(Down(f.c, f.t, d), k) &&
              Measure(Down(f.c, f.t, d), Child(f.t, d), k) < Measure(c, t, k)
  {
    var t1 := Flip(t);
    FlipPath(t, k);
    if k != t.k && DoubleRed(c, t1) && c.d != c.up.d {
      var f := Fix(c, t1);
      var d := Toward(f.t, k);
      assert OnPath(c.up, k);
      assert PathLen(Child(f.t, d), k) == 1 + PathLen(Child(t1, d), k);
    }
  }

  lemma FlipPath(t: Tree, k: int)
    ensures PathLen(Flip(t), k) == PathLen(t, k)
    ensures t.Node? && k != t.k ==> PathLen(Child(Flip(t), Toward(t, k)), k) == PathLen(t, k) - 1
  {
  }

  /** The search loop, from a node of the walk to the tree it leaves behind. */
  function InsertWalk(c: Ctx, t: Tree, n: nat, k: int, v: int, rw: Rewrite): Tree
    requires OnPath(c, k)
    decreases Measure(c, t, k)
  {
    if t.Leaf? then
      var f := Fix(BlackenRoot(c), Node(n, true, Leaf, k, rw(None, v), Leaf));
      Fill(f.c, f.t)
    else
      StepDecreases(c, t, k);
      var f := Fix(c, Flip(t));
      if f.t.k == k then
        Fill(f.c, f.t.(v := rw(Some(f.t.v), v)))
      else
        var d := Toward(f.t, k);
        InsertWalk(Down(f.c, f.t, d), Child(f.t, d), n, k, v, rw)
  }

  /** The tree after inserting key `k`, `n` being the slot a new node takes. */
  function Insert(t: Tree, n: nat, k: int, v: int, rw: Rewrite): Tree {
    if t.Leaf? then Node(n, false, Leaf, k, rw(None, v), Leaf) else InsertWalk(Top, t, n, k, v, rw)
  }

  /* ---- the nodes that a rotation leaves out of step ---- */

  /** The search loop knows its last four nodes only, and a rotation does not bring them up to date: `Full` needs no
      repair, `Shallow` has a stale great-grandfather, `Deep` a stale grandfather too. */
  datatype Stale = Full | Shallow | Deep

  /** What is stale one step below a node where the check for two red nodes is made. */
  function AfterCheck(s: Stale, c: Ctx, t: Tree): Stale {
    if s == Full && DoubleRed(c, t) then (if c.d == c.up.d then Shallow else Deep) else AfterIdle(s)
  }

  /** Without a rotation the window recovers. */
  function AfterIdle(s: Stale): Stale {
    if s == Deep then Shallow else Full
  }

  function NextStale(s: Stale, c: Ctx, t: Tree): Stale {
    AfterCheck(s, c, Flip(t))
  }

  /** From here on the walk for `k` rotates only where it knows the great-grandfather. */
  predicate Steady(c: Ctx, t: Tree, k: int, s: Stale)
    requires OnPath(c, k)
    decreases Measure(c, t, k)
  {
    if t.Leaf? then
      s == Shallow ==> !(c.Fr? && c.up.Fr? && BlackenRoot(c).red)
    else
      StepDecreases(c, t, k);
      var f := Fix(c, Flip(t));
      var d := Toward(f.t, k);
      (s == Shallow ==> !DoubleRed(c, Flip(t)))
      && (t.k != k ==> Steady(Down(f.c, f.t, d), Child(f.t, d), k, NextStale(s, c, t)))
  }

  /** An insertion of `k` never uses a stale entry of its window. */
  predicate InsertsSteadily(t: Tree, k: int) {
    Steady(Top, t, k, Full)
  }

  /* ---- keys, data and slots: refinement of insertion into an ordered list ---- */

  /** Insertion into an ascending list: the reference for what a tree insertion does. */
  function Put(s: seq<Entry>, n: nat, k: int, v: int, rw: Rewrite): seq<Entry> {
    if s == [] then [Entry(n, k, rw(None, v))]
    else if s[0].k < k then [s[0]] + Put(s[1..], n, k, v, rw)
    else if s[0].k == k then [s[0].(v := rw(Some(s[0].v), v))] + s[1..]
    else [Entry(n, k, rw(None, v))] + s
  }

  predicate HasKey(s: seq<Entry>, k: int) {
    exists i :: 0 <= i < |s| && s[i].k == k
  }

  lemma {:induction false} PutAfter(a: seq<Entry>, b: seq<Entry>, n: nat, k: int, v: int, rw: Rewrite)
    requires Below(a, k)
    ensures Put(a + b, n, k, v, rw) == a + Put(b, n, k, v, rw)
  {
    if a == [] {
      assert a + b == b;
    } else {
      assert (a + b)[1..] == a[1..] + b;
      PutAfter(a[1..], b, n, k, v, rw);
    }
  }

  /** The walk ends between the smaller and the larger keys. */
  lemma PutAtLeaf(c: Ctx, n: nat, k: int, v: int, rw: Rewrite)
    requires Sorted(Ent(Fill(c, Leaf))) && OnPath(c, k)
    ensures Put(Ent(Fill(c, Leaf)), n, k, v, rw) == EntL(c) + [Entry(n, k, rw(None, v))] + EntR(c)
  {
    FillEnt(c, Leaf);
    WalkBounds(c, Leaf, k);
    PutAfter(EntL(c), EntR(c), n, k, v, rw);
    assert EntL(c) + Ent(Leaf) + EntR(c) == EntL(c) + EntR(c);
  }

  lemma PutMiddle(a: seq<Entry>, e: Entry, b: seq<Entry>, n: nat, v: int, rw: Rewrite)
    requires Below(a, e.k)
    ensures Put(a + ([e] + b), n, e.k, v, rw) == a + ([e.(v := rw(Some(e.v), v))] + b)
  {
    PutAfter(a, [e] + b, n, e.k, v, rw);
    assert ([e] + b)[1..] == b;
  }

  lemma BelowConcat(a: seq<Entry>, b: seq<Entry>, k: int)
    requires Below(a, k) && Below(b, k)
    ensures Below(a + b, k)
  {
  }

  lemma PutAtKey(c: Ctx, t: Tree, n: nat, v: int, rw: Rewrite)
    requires t.Node? && Sorted(Ent(Fill(c, t))) && OnPath(c, t.k)
    ensures Put(Ent(Fill(c, t)), n, t.k, v, rw) == EntL(c) + Ent(t.(v := rw(Some(t.v), v))) + EntR(c)
  {
    var e := Entry(t.x, t.k, t.v);
    var e' := e.(v := rw(Some(t.v), v));
    var a, b := EntL(c) + Ent(t.l), Ent(t.r) + EntR(c);
    WalkBounds(c, t, t.k);
    BelowConcat(EntL(c), Ent(t.l), t.k);
    FillEnt(c, t);
    PutMiddle(a, e, b, n, v, rw);
    MoveRight(EntL(c), Ent(t.l), [e], Ent(t.r), EntR(c));
    Assoc([e], Ent(t.r), EntR(c));
    MoveRight(EntL(c), Ent(t.l), [e'], Ent(t.r), EntR(c));
    Assoc([e'], Ent(t.r), EntR(c));
  }

  lemma FlipSame(t: Tree)
    ensures Ent(Flip(t)) == Ent(t) && forall i: nat :: Uses(Flip(t), i) == Uses(t, i)
    ensures Flip(t).Leaf? <==> t.Leaf?
  {
    if t.Node? {
      Recolour(t.l, false);
      Recolour(t.r, false);
    }
  }

  lemma FixSame(c: Ctx, t: Tree)
    ensures var f := Fix(c, t);
            EntL(f.c) + Ent(f.t) + EntR(f.c) == EntL(c) + Ent(t) + EntR(c)
  {
    if DoubleRed(c, t) {
      var g := c.up;
      var f := Fix(c, t);
      if c.d == g.d {
        assert EntL(f.c) == EntL(c) && EntR(f.c) == EntR(c);
      } else {
        DoubleSame(c, t);
      }
    }
  }

  lemma DoubleSame(c: Ctx, t: Tree)
    requires DoubleRed(c, t) && c.d != c.up.d
    ensures var f := Fix(c, t);
            EntL(f.c) + Ent(f.t) + EntR(f.c) == EntL(c) + Ent(t) + EntR(c)
  {
    var g := c.up;
    var f := Fix(c, t);
    var e, ec, eg := [Entry(t.x, t.k, t.v)], [Entry(c.x, c.k, c.v)], [Entry(g.x, g.k, g.v)];
    if g.d.Left? {
      assert Ent(f.t) == (Ent(c.sib) + ec + Ent(t.l)) + e + (Ent(t.r) + eg + Ent(g.sib));
      DoubleRotation(EntL(g.up), Ent(c.sib), ec, Ent(t.l), e, Ent(t.r), eg, Ent(g.sib), EntR(g.up));
    } else {
      assert Ent(f.t) == (Ent(g.sib) + eg + Ent(t.l)) + e + (Ent(t.r) + ec + Ent(c.sib));
      DoubleRotation(EntL(g.up), Ent(g.sib), eg, Ent(t.l), e, Ent(t.r), ec, Ent(c.sib), EntR(g.up));
    }
  }

  /** The search from `t` meets a node with key `k`. */
  predicate Finds(t: Tree, k: int) {
    t.Node? && (t.k == k || Finds(Child(t, Toward(t, k)), k))
  }

  lemma FixFinds(c: Ctx, t: Tree, k: int)
    requires t.Node? && OnPath(c, k)
    ensures Finds(Fix(c, Flip(t)).t, k) <==> Finds(t, k)
  {
    var t1 := Flip(t);
    assert t.k != k ==> (Finds(Child(t1, Toward(t, k)), k) <==> Finds(Child(t, Toward(t, k)), k));
    if t.k != k && DoubleRed(c, t1) && c.d != c.up.d {
      var f := Fix(c, t1);
      assert Finds(Child(f.t, Toward(t, k)), k) <==> Finds(Child(t1, Toward(t, k)), k);
    }
  }

  lemma HasKeyConcat(a: seq<Entry>, b: seq<Entry>, k: int)
    ensures HasKey(a + b, k) <==> HasKey(a, k) || HasKey(b, k)
  {
    if HasKey(a, k) {
      var i :| 0 <= i < |a| && a[i].k == k;
      assert (a + b)[i].k == k;
    }
    if HasKey(b, k) {
      var i :| 0 <= i < |b| && b[i].k == k;
      assert (a + b)[|a| + i].k == k;
    }
  }

  lemma HasKeyNode(t: Tree, k: int)
    requires t.Node?
    ensures HasKey(Ent(t), k) <==> t.k == k || HasKey(Ent(t.l), k) || HasKey(Ent(t.r), k)
  {
    var e := [Entry(t.x, t.k, t.v)];
    HasKeyConcat(Ent(t.l) + e, Ent(t.r), k);
    HasKeyConcat(Ent(t.l), e, k);
    assert e[0].k == t.k;
  }

  lemma {:induction false} FindsHasKey(t: Tree, k: int)
    requires Sorted(Ent(t))
    ensures Finds(t, k) <==> HasKey(Ent(t), k)
  {
    if t.Node? {
      NodeSorted(t);
      FindsHasKey(t.l, k);
      FindsHasKey(t.r, k);
      HasKeyNode(t, k);
    }
  }

  lemma FixUses(c: Ctx, t: Tree, i: nat)
    ensures var f := Fix(c, t); CUses(f.c, i) + Uses(f.t, i) == CUses(c, i) + Uses(t, i)
  {
  }

  lemma {:induction false} BlackenSame(c: Ctx)
    ensures var b := BlackenRoot(c);
            EntL(b) == EntL(c) && EntR(b) == EntR(c) && forall i: nat :: CUses(b, i) == CUses(c, i)
  {
    if c.Fr? && c.up.Fr? {
      BlackenSame(c.up);
    }
  }

  lemma DownSame(c: Ctx, t: Tree, d: Dir)
    requires t.Node?
    ensures Fill(Down(c, t, d), Child(t, d)) == Fill(c, t)
  {
  }

  lemma {:induction false} InsertWalkPuts(c: Ctx, t: Tree, n: nat, k: int, v: int, rw: Rewrite)
    requires OnPath(c, k) && Sorted(Ent(Fill(c, t)))
    ensures Ent(InsertWalk(c, t, n, k, v, rw)) == Put(Ent(Fill(c, t)), n, k, v, rw)
    decreases Measure(c, t, k)
  {
    FillEnt(c, t);
    if t.Leaf? {
      var b := BlackenRoot(c);
      var leaf := Node(n, true, Leaf, k, rw(None, v), Leaf);
      var f := Fix(b, leaf);
      BlackenSame(c);
      FixSame(b, leaf);
      FillEnt(f.c, f.t);
      PutAtLeaf(c, n, k, v, rw);
      assert Ent(leaf) == [Entry(n, k, rw(None, v))];
    } else {
      StepDecreases(c, t, k);
      var f := Fix(c, Flip(t));
      FlipSame(t);
      FixSame(c, Flip(t));
      FillEnt(f.c, f.t);
      if f.t.k == k {
        PutAtKey(f.c, f.t, n, v, rw);
        FillEnt(f.c, f.t.(v := rw(Some(f.t.v), v)));
      } else {
        var d := Toward(f.t, k);
        DownSame(f.c, f.t, d);
        InsertWalkPuts(Down(f.c, f.t, d), Child(f.t, d), n, k, v, rw);
      }
    }
  }

  /** Inserting into a search tree is inserting into the ascending list of its nodes: keys, data, slots and order. */
  lemma InsertPuts(t: Tree, n: nat, k: int, v: int, rw: Rewrite)
    requires Sorted(Ent(t))
    ensures Ent(Insert(t, n, k, v, rw)) == Put(Ent(t), n, k, v, rw)
  {
    if t.Node? {
      InsertWalkPuts(Top, t, n, k, v, rw);
    }
  }

  /** How many nodes come before `k`. */
  function Rank(s: seq<Entry>, k: int): nat {
    if s == [] || s[0].k >= k then 0 else 1 + Rank(s[1..], k)
  }

  lemma {:induction false} RankSplits(s: seq<Entry>, k: int)
    requires Sorted(s)
    ensures Rank(s, k) <= |s|
    ensures forall i :: 0 <= i < |s| ==> (i < Rank(s, k) <==> s[i].k < k)
  {
    if s != [] && s[0].k < k {
      var r := s[1..];
      assert forall i :: 0 <= i < |r| ==> r[i] == s[i + 1];
      RankSplits(r, k);
      assert forall i :: 1 <= i < |s| ==> s[i] == r[i - 1];
    }
  }

  lemma RankIsKey(s: seq<Entry>, k: int)
    requires Sorted(s) && HasKey(s, k)
    ensures Rank(s, k) < |s| && s[Rank(s, k)].k == k
  {
    RankSplits(s, k);
    var j :| 0 <= j < |s| && s[j].k == k;
    assert Rank(s, k) <= j;
  }

  lemma SplitUpdate<T>(s: seq<T>, m: nat, e: T)
    requires m < |s|
    ensures s == s[..m] + ([s[m]] + s[m + 1..]) && s[m := e] == s[..m] + ([e] + s[m + 1..])
  {
  }

  /** What insertion into an ascending list does, in terms of positions: a present key has its data rewritten in
      place, ... */
  lemma PutPresent(s: seq<Entry>, n: nat, k: int, v: int, rw: Rewrite)
    requires Sorted(s) && HasKey(s, k)
    ensures var m := Rank(s, k);
            m < |s| && s[m].k == k && Put(s, n, k, v, rw) == s[m := s[m].(v := rw(Some(s[m].v), v))]
  {
    var m := Rank(s, k);
    RankSplits(s, k);
    RankIsKey(s, k);
    SplitUpdate(s, m, s[m].(v := rw(Some(s[m].v), v)));
    PutMiddle(s[..m], s[m], s[m + 1..], n, v, rw);
  }

  /** ... and an absent one gets a new node between the smaller and the larger keys. */
  lemma PutAbsent(s: seq<Entry>, n: nat, k: int, v: int, rw: Rewrite)
    requires Sorted(s) && !HasKey(s, k)
    ensures var m := Rank(s, k);
            m <= |s| && Put(s, n, k, v, rw) == s[..m] + [Entry(n, k, rw(None, v))] + s[m..]
            && Below(s[..m], k) && Above(s[m..], k)
  {
    var m := Rank(s, k);
    RankSplits(s, k);
    assert s == s[..m] + s[m..];
    assert forall i :: m <= i < |s| ==> s[i].k != k;
    PutFront(s[m..], n, k, v, rw);
    hide Put, HasKey;
    PutAfter(s[..m], s[m..], n, k, v, rw);
    Assoc(s[..m], [Entry(n, k, rw(None, v))], s[m..]);
  }

  lemma PutFront(s: seq<Entry>, n: nat, k: int, v: int, rw: Rewrite)
    requires Above(s, k)
    ensures Put(s, n, k, v, rw) == [Entry(n, k, rw(None, v))] + s
  {
  }

  lemma PutSorted(s: seq<Entry>, n: nat, k: int, v: int, rw: Rewrite)
    requires Sorted(s)
    ensures Sorted(Put(s, n, k, v, rw))
    ensures |Put(s, n, k, v, rw)| == |s| + if HasKey(s, k) then 0 else 1
  {
    if HasKey(s, k) {
      PutPresent(s, n, k, v, rw);
    } else {
      var m := Rank(s, k);
      PutAbsent(s, n, k, v, rw);
      assert s == s[..m] + s[m..];
      InsertSorted(s[..m], Entry(n, k, rw(None, v)), s[m..]);
    }
  }

  lemma InsertSorted(a: seq<Entry>, e: Entry, b: seq<Entry>)
    requires Sorted(a + b) && Below(a, e.k) && Above(b, e.k)
    ensures Sorted(a + [e] + b)
  {
    SortedParts(a, b);
  }

  lemma {:induction false} InsertWalkUses(c: Ctx, t: Tree, n: nat, k: int, v: int, rw: Rewrite, i: nat)
    requires OnPath(c, k)
    ensures Uses(InsertWalk(c, t, n, k, v, rw), i)
         == Uses(Fill(c, t), i) + if i == n && !Finds(t, k) then 1 else 0
    decreases Measure(c, t, k)
  {
    FillUses(c, t, i);
    if t.Leaf? {
      var b := BlackenRoot(c);
      var leaf := Node(n, true, Leaf, k, rw(None, v), Leaf);
      var f := Fix(b, leaf);
      BlackenSame(c);
      FixUses(b, leaf, i);
      FillUses(f.c, f.t, i);
    } else {
      StepDecreases(c, t, k);
      var f := Fix(c, Flip(t));
      FlipSame(t);
      FixUses(c, Flip(t), i);
      FillUses(f.c, f.t, i);
      if f.t.k == k {
        FillUses(f.c, f.t.(v := rw(Some(f.t.v), v)), i);
      } else {
        var d := Toward(f.t, k);
        DownSame(f.c, f.t, d);
        FixFinds(c, t, k);
        InsertWalkUses(Down(f.c, f.t, d), Child(f.t, d), n, k, v, rw, i);
      }
    }
  }

  /* ---- colours and black heights ---- */

  /** Where the walk can be when it compares: the father of the current node has at most one red son and no red uncle
      matters (`Fresh`), the step after a colour flip or single rotation (`Settled`), or the step after a double
      rotation (`Revisit`). In the last two nothing is recoloured or rotated. */
  predicate Fresh(c: Ctx, t: Tree) {
    c.Fr? ==> !(Red(t) && Red(c.sib)) && (c.red && c.up.Fr? ==> !Red(c.up.sib))
  }

  predicate Settled(t: Tree) {
    t.Node? && !t.red && !Red(t.l) && !Red(t.r)
  }

  predicate Revisit(c: Ctx, t: Tree, k: int) {
    c.Fr? && !c.red && t.Node? && t.red && t.k != k && !Red(t.l) && !Red(t.r) && Settled(Child(t, Toward(t, k)))
  }

  predicate Ready(c: Ctx, t: Tree, k: int) {
    Fresh(c, t) || Settled(t) || Revisit(c, t, k)
  }

  /** Colours of the whole tree around the focus. */
  predicate Coloured(c: Ctx, t: Tree) {
    FocusNoRed(c, t) && Balanced(t) && CBal(c, Bh(t), 0)
  }

  lemma FlipColours(c: Ctx, t: Tree)
    requires t.Node? && FocusNoRed(c, t)
    ensures NoRedRedBelow(Flip(t)) && (c.Fr? ==> NoRedRed(Flip(t)))
    ensures Flip(t) != t ==> Settled(Flip(t).l) && Settled(Flip(t).r) && Flip(t).red
    ensures Flip(t) == t ==> !(Red(t.l) && Red(t.r))
  {
    assert NoRedRed(t.l) && NoRedRed(t.r);
    if Red(t.l) && Red(t.r) {
      BlackSon(t.l);
      BlackSon(t.r);
    }
  }

  lemma FlipBalanced(c: Ctx, t: Tree)
    requires t.Node? && FocusNoRed(c, t) && Balanced(t)
    ensures Balanced(Flip(t)) && (c.Fr? ==> Bh(Flip(t)) == Bh(t))
  {
    if Red(t.l) && Red(t.r) {
      BlackSon(t.l);
      BlackSon(t.r);
    }
  }

  lemma BlackSon(s: Tree)
    requires Red(s) && NoRedRed(s)
    ensures var b := SetRed(s, false);
            Settled(b) && NoRedRed(b) && (Balanced(b) <==> Balanced(s)) && Bh(b) == Bh(s) + 1
  {
  }

  /** A rotation takes away the one red-red edge. */
  lemma FixColours(c: Ctx, t: Tree)
    requires t.Node? && DoubleRed(c, t) && NoRedRed(t) && CNoRed(c.up, c.red)
    requires NoRedRed(c.sib) && !Red(c.sib) && !Red(c.up.sib)
    ensures var f := Fix(c, t); FocusNoRed(f.c, f.t)
  {
    var g := c.up;
    var f := Fix(c, t);
    assert CNoRed(g.up, g.red);
    assert CNoRed(g.up, false);
    assert NoRedRed(g.sib);
    if c.d == g.d {
      assert NoRedRed(f.c.sib);
    } else {
      assert NoRedRedBelow(f.t);
    }
  }

  lemma FixBalanced(c: Ctx, t: Tree)
    requires t.Node? && DoubleRed(c, t) && Balanced(t) && CBal(c, Bh(t), 0) && CNoRed(c.up, c.red)
    ensures var f := Fix(c, t); Balanced(f.t) && CBal(f.c, Bh(f.t), 0)
  {
    var g := c.up;
    if c.d == g.d {
      assert CBal(g.up, Bh(t) + if g.red then 0 else 1, 0);
    }
  }

  lemma StepColours(c: Ctx, t: Tree, k: int)
    requires t.Node? && FocusNoRed(c, t) && Ready(c, t, k) && OnPath(c, k)
    ensures var f := Fix(c, Flip(t)); FocusNoRed(f.c, f.t)
  {
    FlipColours(c, t);
    var t1 := Flip(t);
    if DoubleRed(c, t1) {
      FixColours(c, t1);
    }
  }

  lemma StepBalanced(c: Ctx, t: Tree, k: int)
    requires t.Node? && Coloured(c, t) && Ready(c, t, k) && OnPath(c, k)
    ensures var f := Fix(c, Flip(t)); Coloured(f.c, f.t)
  {
    StepColours(c, t, k);
    FlipColours(c, t);
    FlipBalanced(c, t);
    var t1 := Flip(t);
    if DoubleRed(c, t1) {
      FixBalanced(c, t1);
    }
  }

  lemma StepReady(c: Ctx, t: Tree, k: int)
    requires t.Node? && FocusNoRed(c, t) && Ready(c, t, k) && OnPath(c, k) && t.k != k
    ensures var f := Fix(c, Flip(t));
            var d := Toward(f.t, k);
            f.t.Node? && Ready(Down(f.c, f.t, d), Child(f.t, d), k)
  {
    FlipColours(c, t);
  }

  lemma {:induction false} BlackenColours(c: Ctx, h: nat)
    requires c.Fr?
    ensures var b := BlackenRoot(c);
            b.Fr? && !RootRed(b, true) && (CBal(c, h, 0) ==> CBal(b, h, 0))
            && (b.red ==> c.red) && (b.up.Fr? <==> c.up.Fr?) && Red(b.sib) == Red(c.sib)
            && (b.up.Fr? ==> Red(b.up.sib) == Red(c.up.sib))
  {
    if c.up.Fr? {
      BlackenColours(c.up, h + if c.red then 0 else 1);
    }
  }

  lemma {:induction false} BlackenWeakens(c: Ctx, r: bool)
    requires c.Fr? && CNoRed(c, r)
    ensures CNoRed(BlackenRoot(c), r)
  {
    if c.up.Fr? {
      BlackenWeakens(c.up, c.red);
    }
  }

  lemma FixRoot(c: Ctx, t: Tree)
    requires t.Node? && c.Fr?
    ensures var f := Fix(c, t); RootRed(f.c, Red(f.t)) ==> RootRed(c, Red(t))
  {
    if DoubleRed(c, t) {
      var g := c.up;
      assert RootRed(c, Red(t)) == RootRed(g, c.red) == RootRed(g.up, g.red);
      assert RootRed(g.up, false) ==> RootRed(g.up, g.red);
      assert c.d == g.d ==> RootRed(Fix(c, t).c, Red(t)) == RootRed(g.up, false);
    }
  }

  /** Attaching the new red leaf. */
  lemma AttachColours(c: Ctx, n: nat, k: int, v: int)
    requires c.Fr? && FocusNoRed(c, Leaf) && Fresh(c, Leaf)
    ensures var leaf := Node(n, true, Leaf, k, v, Leaf);
            var f := Fix(BlackenRoot(c), leaf);
            FocusNoRed(f.c, f.t) && !RootRed(f.c, Red(f.t)) && (CBal(c, 0, 0) ==> Coloured(f.c, f.t))
  {
    var b := BlackenRoot(c);
    var leaf := Node(n, true, Leaf, k, v, Leaf);
    BlackenColours(c, 0);
    BlackenWeakens(c, false);
    FixRoot(b, leaf);
    if DoubleRed(b, leaf) {
      FixColours(b, leaf);
      if CBal(c, 0, 0) {
        FixBalanced(b, leaf);
      }
    }
  }

  /** Where there is no red-red edge the walk is steady, and it leaves none. */
  lemma {:induction false} InsertWalkNoRed(c: Ctx, t: Tree, n: nat, k: int, v: int, rw: Rewrite, s: Stale)
    requires OnPath(c, k) && FocusNoRed(c, t) && Ready(c, t, k) && (c.Fr? || t.Node?)
    requires (s == Shallow ==> Settled(t)) && (s == Deep ==> Revisit(c, t, k))
    ensures Steady(c, t, k, s) && NoRedRedBelow(InsertWalk(c, t, n, k, v, rw))
    decreases Measure(c, t, k)
  {
    if t.Leaf? {
      var b := BlackenRoot(c);
      var leaf := Node(n, true, Leaf, k, rw(None, v), Leaf);
      AttachColours(c, n, k, rw(None, v));
      FillNoRed(Fix(b, leaf).c, Fix(b, leaf).t);
    } else {
      StepDecreases(c, t, k);
      var f := Fix(c, Flip(t));
      StepColours(c, t, k);
      if f.t.k == k {
        FillNoRed(f.c, f.t.(v := rw(Some(f.t.v), v)));
      } else {
        var d := Toward(f.t, k);
        StepReady(c, t, k);
        StepStale(c, t, k, s);
        DownNoRed(f.c, f.t, d);
        InsertWalkNoRed(Down(f.c, f.t, d), Child(f.t, d), n, k, v, rw, NextStale(s, c, t));
      }
    }
  }

  lemma StepStale(c: Ctx, t: Tree, k: int, s: Stale)
    requires t.Node? && FocusNoRed(c, t) && Ready(c, t, k) && OnPath(c, k) && t.k != k
    requires (s == Shallow ==> Settled(t)) && (s == Deep ==> Revisit(c, t, k))
    ensures var f := Fix(c, Flip(t));
            var d := Toward(f.t, k);
            f.t.Node? && (s == Shallow ==> !DoubleRed(c, Flip(t)))
            && (NextStale(s, c, t) == Shallow ==> Settled(Child(f.t, d)))
            && (NextStale(s, c, t) == Deep ==> Revisit(Down(f.c, f.t, d), Child(f.t, d), k))
  {
    FlipColours(c, t);
  }

  lemma DownNoRed(c: Ctx, t: Tree, d: Dir)
    requires t.Node? && FocusNoRed(c, t)
    ensures FocusNoRed(Down(c, t, d), Child(t, d))
  {
    FillNoRed(c, t);
    FillNoRed(Down(c, t, d), Child(t, d));
    DownSame(c, t, d);
  }

  lemma {:induction false} InsertWalkColours(c: Ctx, t: Tree, n: nat, k: int, v: int, rw: Rewrite)
    requires OnPath(c, k) && Coloured(c, t) && Ready(c, t, k) && (c.Fr? || t.Node?)
    requires RootRed(c, Red(t)) ==> |Ent(Fill(c, t))| >= 3
    ensures var u := InsertWalk(c, t, n, k, v, rw);
            NoRedRedBelow(u) && Balanced(u) && (Red(u) ==> Finds(t, k) && |Ent(Fill(c, t))| >= 3)
    decreases Measure(c, t, k)
  {
    if t.Leaf? {
      var b := BlackenRoot(c);
      var leaf := Node(n, true, Leaf, k, rw(None, v), Leaf);
      var f := Fix(b, leaf);
      AttachColours(c, n, k, rw(None, v));
      WholeColours(f.c, f.t);
    } else {
      StepDecreases(c, t, k);
      var t1 := Flip(t);
      var f := Fix(c, t1);
      StepBalanced(c, t, k);
      FixFinds(c, t, k);
      StepRoot(c, t);
      if f.t.k == k {
        var u := f.t.(v := rw(Some(f.t.v), v));
        assert Coloured(f.c, u);
        WholeColours(f.c, u);
      } else {
        var d := Toward(f.t, k);
        StepReady(c, t, k);
        DownSame(f.c, f.t, d);
        DownColours(f.c, f.t, d);
        InsertWalkColours(Down(f.c, f.t, d), Child(f.t, d), n, k, v, rw);
      }
    }
  }

  /** A step keeps the number of nodes; it makes the root red only above two red sons. */
  lemma StepRoot(c: Ctx, t: Tree)
    requires t.Node? && (RootRed(c, Red(t)) ==> |Ent(Fill(c, t))| >= 3)
    ensures var f := Fix(c, Flip(t));
            |Ent(Fill(f.c, f.t))| == |Ent(Fill(c, t))| && (RootRed(f.c, Red(f.t)) ==> |Ent(Fill(c, t))| >= 3)
  {
    var f := Fix(c, Flip(t));
    FlipSame(t);
    FixSame(c, Flip(t));
    FillEnt(c, t);
    FillEnt(f.c, f.t);
    if c.Fr? {
      FixRoot(c, Flip(t));
    }
  }

  lemma WholeColours(c: Ctx, t: Tree)
    requires Coloured(c, t)
    ensures NoRedRedBelow(Fill(c, t)) && Balanced(Fill(c, t)) && Red(Fill(c, t)) == RootRed(c, Red(t))
  {
    FillNoRed(c, t);
    FillBalanced(c, t);
    FillRoot(c, t);
  }

  lemma DownColours(c: Ctx, t: Tree, d: Dir)
    requires t.Node? && Coloured(c, t)
    ensures Coloured(Down(c, t, d), Child(t, d))
    ensures RootRed(Down(c, t, d), Red(Child(t, d))) == RootRed(c, Red(t))
  {
    DownNoRed(c, t, d);
  }

  /** Without red-red edges insertion is steady and makes none, balanced or not. */
  lemma InsertKeepsNoRed(t: Tree, n: nat, k: int, v: int, rw: Rewrite)
    requires NoRedRedBelow(t)
    ensures InsertsSteadily(t, k) && NoRedRedBelow(Insert(t, n, k, v, rw))
  {
    if t.Node? {
      InsertWalkNoRed(Top, t, n, k, v, rw, Full);
    }
  }

  /** Insertion keeps the red-black tree; a new key leaves a black root. */
  lemma InsertKeepsRedBlack(t: Tree, n: nat, k: int, v: int, rw: Rewrite)
    requires Weak(t) && Sorted(Ent(t))
    ensures Weak(Insert(t, n, k, v, rw))
    ensures !HasKey(Ent(t), k) ==> Strict(Insert(t, n, k, v, rw))
  {
    var u := Insert(t, n, k, v, rw);
    if t.Node? {
      InsertWalkColours(Top, t, n, k, v, rw);
      InsertPuts(t, n, k, v, rw);
      PutSorted(Ent(t), n, k, v, rw);
      FindsHasKey(t, k);
      assert NoRedRedBelow(u) && !Red(u) ==> NoRedRed(u);
    }
  }

  /** Insertion fills the next slot, or none when the key is present. */
  lemma InsertCompact(t: Tree, k: int, v: int, rw: Rewrite)
    requires Compact(t, |Ent(t)|) && Sorted(Ent(t))
    ensures var u := Insert(t, |Ent(t)|, k, v, rw); Compact(u, |Ent(u)|)
  {
    var n := |Ent(t)|;
    var u := Insert(t, n, k, v, rw);
    InsertPuts(t, n, k, v, rw);
    PutSorted(Ent(t), n, k, v, rw);
    FindsHasKey(t, k);
    forall i: nat
      ensures Uses(u, i) == if i < |Ent(u)| then 1 else 0
    {
      if t.Node? {
        InsertWalkUses(Top, t, n, k, v, rw, i);
      }
    }
  }

}
