/** What tree, if any, can be read from an array of nodes. */
module TreeReading {
  import opened RbModel
  import opened RbInsert
  import opened RbDelete
  import opened TreeArray
  import opened TreeMap

  /** The array holds a tree with these entries. */
  ghost predicate StandsFor(ns: seq<Nd>, root: nat, m: map<int, int>) {
    exists u :: RepZ(ns, root, Top, u) && Contents(u) == m
  }

  lemma Stands(ns: seq<Nd>, root: nat, u: Tree)
    requires RepZ(ns, root, Top, u)
    ensures StandsFor(ns, root, Contents(u))
  {
  }

  /** An array holds at most one tree below an index. */
  lemma {:induction false} RepUnique(ns: seq<Nd>, t: Tree, u: Tree)
    requires Rep(ns, t) && Rep(ns, u) && Idx(t) == Idx(u) && |ns| <= NIL
    ensures t == u
  {
    if t.Node? && u.Node? {
      RepUnique(ns, t.l, u.l);
      RepUnique(ns, t.r, u.r);
    }
  }

  /** Where a walk from slot `i` in directions `ds` gets. */
  function Goes(ns: seq<Nd>, i: nat, ds: seq<Dir>): nat
    decreases |ds|
  {
    if ds == [] then i else if i < |ns| then Goes(ns, Lr(ns[i], ds[0]), ds[1..]) else NIL
  }

  /** In a tree every step leads to a smaller subtree. */
  lemma {:induction false} GoesDown(ns: seq<Nd>, t: Tree, ds: seq<Dir>) returns (u: Tree)
    requires Rep(ns, t) && |ns| <= NIL && Goes(ns, Idx(t), ds) < NIL
    ensures Rep(ns, u) && Idx(u) == Goes(ns, Idx(t), ds) && |Ent(u)| + |ds| <= |Ent(t)|
    decreases |ds|
  {
    u := t;
    if ds != [] {
      var son := Child(t, ds[0]);
      assert Lr(ns[t.x], ds[0]) == Idx(son) && |Ent(son)| < |Ent(t)|;
      assert Goes(ns, t.x, ds) == Goes(ns, Idx(son), ds[1..]);
      u := GoesDown(ns, son, ds[1..]);
    }
  }

  /** So no walk comes back to where it began. */
  lemma NoCycle(ns: seq<Nd>, t: Tree, ds: seq<Dir>)
    requires Rep(ns, t) && |ns| <= NIL && ds != [] && t.Node?
    ensures Goes(ns, t.x, ds) != t.x
  {
    if Goes(ns, t.x, ds) < NIL {
      var u := GoesDown(ns, t, ds);
      if u.Node? && u.x == t.x {
        RepUnique(ns, t, u);
      }
    }
  }

  /** A tree read from the root goes through the context that the array holds. */
  lemma {:induction false} PathTo(ns: seq<Nd>, root: nat, c: Ctx, i: nat, u: Tree) returns (w: Tree)
    requires RepC(ns, root, c, i) && RepZ(ns, root, Top, u) && |ns| <= NIL
    ensures Rep(ns, w) && Idx(w) == i && u == Fill(c, w)
  {
    w := u;
    if c.Fr? {
      var v := PathTo(ns, root, c.up, c.x, u);
      w := Child(v, c.d);
      RepUnique(ns, Child(v, Cd(c.d)), c.sib);
    }
  }

  lemma {:induction false} DictSize(s: seq<Entry>)
    ensures |Dict(Pairs(s))| <= |s|
    ensures Sorted(s) ==> |Dict(Pairs(s))| == |s|
  {
    if s != [] {
      var m := Dict(Pairs(s[1..]));
      DictSize(s[1..]);
      DictKeys(s[1..], s[0].k);
      if Sorted(s) {
        SortedTail(s);
      }
      assert m[s[0].k := s[0].v].Keys == m.Keys + {s[0].k};
      assert |m[s[0].k := s[0].v]| == |m[s[0].k := s[0].v].Keys| && |m| == |m.Keys|;
    }
  }

  /** Without the key of a node the map is larger than what two nodes less can hold. */
  lemma TooSmall(t: Tree, k: int, u: Tree)
    requires Sorted(Ent(t)) && HasKey(Ent(t), k) && |Ent(u)| + 2 <= |Ent(t)|
    ensures Contents(u) != Contents(t) - {k}
  {
    DictSize(Ent(t));
    DictSize(Ent(u));
    DictKeys(Ent(t), k);
    var m := Contents(t);
    assert (m - {k}).Keys == m.Keys - {k};
    assert |m - {k}| == |(m - {k}).Keys| && |m| == |m.Keys|;
  }

  lemma StandsOnlyFor(ns: seq<Nd>, root: nat, u: Tree, m: map<int, int>)
    requires RepZ(ns, root, Top, u) && |ns| <= NIL && Contents(u) != m
    ensures !StandsFor(ns, root, m)
  {
    hide Contents;
    forall w | RepZ(ns, root, Top, w)
      ensures w == u
    {
      RepUnique(ns, w, u);
    }
  }

  /** The root index is behind the last slot, or the root is its own son: there is no tree. */
  lemma NoTree(ns: seq<Nd>, root: nat, m: map<int, int>)
    requires |ns| <= root < NIL || (root < |ns| <= NIL && ns[root].r == root)
    ensures !StandsFor(ns, root, m)
  {
    hide Contents;
    forall u
      ensures !RepZ(ns, root, Top, u)
    {
      if RepZ(ns, root, Top, u) {
        assert |Ent(u.r)| < |Ent(u)|;
        RepUnique(ns, u, u.r);
      }
    }
  }

  /** Whatever tree the array holds, it has at least two nodes less than `n`. */
  ghost predicate Shrunk(ns: seq<Nd>, root: nat, n: nat) {
    forall u :: RepZ(ns, root, Top, u) ==> |Ent(u)| + 2 <= n
  }

  lemma ShrunkStands(ns: seq<Nd>, root: nat, n: nat, m: map<int, int>)
    requires Shrunk(ns, root, n) && n <= |m| + 1
    ensures !StandsFor(ns, root, m)
  {
    forall u | RepZ(ns, root, Top, u)
      ensures Contents(u) != m
    {
      DictSize(Ent(u));
    }
  }

}
