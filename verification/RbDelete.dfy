/** Top-down deletion (st_delete) as a function on the walked tree, and what it does to keys, slots, colours and
    black heights. */
module RbDelete {
  import opened RbModel
  import opened RbInsert
  import opened Sequences
  import opened Wrappers

  /** Pushes a red node down before the walk leaves `t` in direction `d`. */
  function Push(c: Ctx, t: Tree, d: Dir): (f: Focus)
    requires t.Node?
    ensures f.t.Node? && f.t.x == t.x && f.t.k == t.k && f.t.v == t.v && Child(f.t, d) == Child(t, d)
  {
    var xd := Cd(d);
    if t.red || Red(Child(t, d)) then
      Focus(c, t)
    else if Red(Child(t, xd)) then
      var y := Child(t, xd);
      Focus(Fr(d, y.x, false, y.k, y.v, Child(y, xd), c), Mk(d, t.x, true, t.k, t.v, Child(t, d), Child(y, d)))
    else if c.Top? || c.sib.Leaf? then
      Focus(c, t)
    else
      PushFromSibling(c, t)
  }

  /** The current node is black with black sons: the red comes from the father or from the sibling's sons. */
  function PushFromSibling(c: Ctx, t: Tree): (f: Focus)
    requires t.Node? && c.Fr? && c.sib.Node?
    ensures f.t == t.(red := true)
  {
    if !Red(c.sib.l) && !Red(c.sib.r) then TakeFlip(c, t)
    else if Red(Child(c.sib, c.d)) then TakeDouble(c, t)
    else TakeSingle(c, t)
  }

  function TakeFlip(c: Ctx, t: Tree): Focus
    requires t.Node? && c.Fr? && c.sib.Node?
  {
    Focus(c.(red := false, sib := SetRed(c.sib, true)), t.(red := true))
  }

  function TakeDouble(c: Ctx, t: Tree): Focus
    requires t.Node? && c.Fr? && c.sib.Node? && Red(Child(c.sib, c.d))
  {
    var s, z := c.sib, Child(c.sib, c.d);
    var s' := Mk(c.d, s.x, false, s.k, s.v, Child(z, Cd(c.d)), Child(s, Cd(c.d)));
    var top := Fr(c.d, z.x, true, z.k, z.v, s', c.up);
    Focus(c.(red := false, sib := Child(z, c.d), up := top), t.(red := true))
  }

  function TakeSingle(c: Ctx, t: Tree): Focus
    requires t.Node? && c.Fr? && c.sib.Node?
  {
    var s := c.sib;
    var top := Fr(c.d, s.x, true, s.k, s.v, SetRed(Child(s, Cd(c.d)), false), c.up);
    Focus(c.(red := false, sib := Child(s, c.d), up := top), t.(red := true))
  }

  /** The search loop down to the node whose son in the walk's direction is missing. Past a node that holds `k` the
      walk goes to its in-order predecessor. */
  function DeleteWalk(c: Ctx, t: Tree, k: int): (f: Focus)
    requires t.Node?
    ensures f.t.Node?
    decreases t
  {
    var d := Toward(t, k);
    var f := Push(c, t, d);
    if Child(f.t, d).Leaf? then f else DeleteWalk(Down(f.c, f.t, d), Child(t, d), k)
  }

  predicate CHas(c: Ctx, k: int) {
    c.Fr? && (c.k == k || CHas(c.up, k))
  }

  /** Overwrites the key and data of the node that holds `k`; its slot and links stay. */
  function Overwrite(c: Ctx, k: int, nk: int, nv: int): Ctx {
    if c.Top? then c
    else if c.k == k then c.(k := nk, v := nv)
    else c.(up := Overwrite(c.up, k, nk, nv))
  }

  predicate WalkFound(f: Focus, k: int) {
    f.t.Node? && (f.t.k == k || CHas(f.c, k))
  }

  /** The root holds `k`, and the walk neither leaves it nor pushes it down. */
  predicate RootOnly(t: Tree, k: int) {
    t.Node? && t.k == k && t.l.Leaf? && (t.red || !Red(t.r))
  }

  /** Where deletion loses entries: the root index keeps naming the slot that is given up. */
  predicate LosesKeys(t: Tree, k: int) {
    RootOnly(t, k) && |Ent(t)| > 1
  }

  lemma {:induction false} DeleteWalkDeep(c: Ctx, t: Tree, k: int)
    requires c.Fr? && t.Node?
    ensures DeleteWalk(c, t, k).c.Fr?
    decreases t
  {
    var d := Toward(t, k);
    var f := Push(c, t, d);
    if Child(f.t, d).Node? {
      DeleteWalkDeep(Down(f.c, f.t, d), Child(t, d), k);
    }
  }

  lemma RootOnlyWalk(t: Tree, k: int)
    requires t.Node?
    ensures RootOnly(t, k) <==> DeleteWalk(Top, t, k).c.Top? && t.k == k
    ensures DeleteWalk(Top, t, k).c.Top? ==> DeleteWalk(Top, t, k) == Focus(Top, t)
  {
    var d := Toward(t, k);
    var f := Push(Top, t, d);
    if Child(f.t, d).Node? {
      DeleteWalkDeep(Down(f.c, f.t, d), Child(t, d), k);
    }
  }

  /** Takes the last node of the walk out, moving its key and data to the node that holds `k`. */
  function Unlink(f: Focus, k: int): Tree
    requires f.t.Node?
  {
    var rest := if f.t.l.Leaf? then f.t.r else f.t.l;
    Fill(if f.t.k == k then f.c else Overwrite(f.c, k, f.t.k, f.t.v), rest)
  }

  /** Moves the node in slot `from` to slot `to`. */
  function Rename(t: Tree, from: nat, to: nat): Tree {
    match t
    case Leaf => Leaf
    case Node(x, red, l, k, v, r) =>
      Node(if x == from then to else x, red, Rename(l, from, to), k, v, Rename(r, from, to))
  }

  /** The tree after deleting key `k`: the freed slot is filled with the node of the last slot. This is what st_delete
      leaves in the array unless `LosesKeys(t, k)`. */
  function Delete(t: Tree, k: int): Tree {
    var n := |Ent(t)|;
    if t.Leaf? || (n == 1 && t.k == k) then
      Leaf
    else
      var f := DeleteWalk(Top, t, k);
      SetRed(if WalkFound(f, k) then Rename(Unlink(f, k), n - 1, f.t.x) else Fill(f.c, f.t), false)
  }

  /* ---- keys, data and slots: refinement of removal from a list ---- */

  /** Keys and data in ascending order. */
  function Pairs(s: seq<Entry>): seq<(int, int)> {
    if s == [] then [] else [(s[0].k, s[0].v)] + Pairs(s[1..])
  }

  function Without(s: seq<(int, int)>, k: int): seq<(int, int)> {
    if s == [] then [] else (if s[0].0 == k then [] else [s[0]]) + Without(s[1..], k)
  }

  lemma {:induction false} PairsConcat(a: seq<Entry>, b: seq<Entry>)
    ensures Pairs(a + b) == Pairs(a) + Pairs(b)
  {
    if a == [] {
      assert a + b == b;
    } else {
      assert (a + b)[1..] == a[1..] + b;
      PairsConcat(a[1..], b);
    }
  }

  lemma {:induction false} WithoutConcat(a: seq<(int, int)>, b: seq<(int, int)>, k: int)
    ensures Without(a + b, k) == Without(a, k) + Without(b, k)
  {
    if a == [] {
      assert a + b == b;
    } else {
      assert (a + b)[1..] == a[1..] + b;
      WithoutConcat(a[1..], b, k);
    }
  }

  lemma {:induction false} WithoutAbsent(s: seq<Entry>, k: int)
    requires !HasKey(s, k)
    ensures Without(Pairs(s), k) == Pairs(s)
  {
    if s != [] {
      assert s[0].k != k;
      forall i | 0 <= i < |s[1..]|
        ensures s[1..][i].k != k
      {
        assert s[i + 1].k != k;
      }
      WithoutAbsent(s[1..], k);
    }
  }

  lemma PairsAround(a: seq<Entry>, e: Entry, b: seq<Entry>)
    ensures Pairs(a + [e] + b) == Pairs(a) + [(e.k, e.v)] + Pairs(b)
  {
    PairsConcat(a + [e], b);
    PairsConcat(a, [e]);
    assert Pairs([e]) == [(e.k, e.v)];
  }

  /** Removing the one node with key `k` of an ascending list. */
  lemma WithoutOne(a: seq<Entry>, e: Entry, b: seq<Entry>)
    requires Below(a, e.k) && Above(b, e.k)
    ensures Without(Pairs(a + [e] + b), e.k) == Pairs(a + b)
  {
    var p := [(e.k, e.v)];
    PairsAround(a, e, b);
    PairsConcat(a, b);
    WithoutConcat(Pairs(a) + p, Pairs(b), e.k);
    WithoutConcat(Pairs(a), p, e.k);
    WithoutAbsent(a, e.k);
    WithoutAbsent(b, e.k);
    assert Without(p, e.k) == [];
    assert Pairs(a) + [] == Pairs(a);
  }

  /** The deletion walk for `k` goes through this context; it goes left where it meets `k`. */
  predicate OnDeletePath(c: Ctx, k: int) {
    c.Fr? ==> (if c.d.Left? then k <= c.k else c.k < k) && OnDeletePath(c.up, k)
  }

  function Reading(c: Ctx, t: Tree): seq<Entry> {
    EntL(c) + Ent(t) + EntR(c)
  }

  lemma NodeBounds(t: Tree, k: int)
    requires t.Node?
    ensures Above(Ent(t), k) ==> k < t.k && Above(Ent(t.l), k) && Above(Ent(t.r), k)
    ensures Below(Ent(t), k) ==> t.k < k && Below(Ent(t.l), k) && Below(Ent(t.r), k)
  {
    var s, n := Ent(t), |Ent(t.l)|;
    assert s[n].k == t.k;
    assert forall i :: 0 <= i < n ==> Ent(t.l)[i] == s[i];
    assert forall i :: 0 <= i < |Ent(t.r)| ==> Ent(t.r)[i] == s[n + 1 + i];
  }

  lemma SiblingBounds(c: Ctx, t: Tree)
    requires c.Fr? && Sorted(Reading(c, t))
    ensures if c.d.Left? then Above(Ent(c.sib), c.k) else Below(Ent(c.sib), c.k)
  {
    SortedParts(EntL(c) + Ent(t), EntR(c));
    SortedParts(EntL(c), Ent(t));
    var e := [Entry(c.x, c.k, c.v)];
    assert e[0].k == c.k;
    if c.d.Left? {
      SortedParts(e + Ent(c.sib), EntR(c.up));
      SortedParts(e, Ent(c.sib));
    } else {
      SortedParts(EntL(c.up) + Ent(c.sib), e);
      assert forall i :: 0 <= i < |Ent(c.sib)| ==> (EntL(c.up) + Ent(c.sib))[|EntL(c.up)| + i] == Ent(c.sib)[i];
    }
  }

  lemma PushPath(c: Ctx, t: Tree, k: int)
    requires t.Node? && OnDeletePath(c, k) && Sorted(Reading(c, t))
    ensures OnDeletePath(Push(c, t, Toward(t, k)).c, k)
  {
    SortedParts(EntL(c) + Ent(t), EntR(c));
    SortedParts(EntL(c), Ent(t));
    NodeSorted(t);
    var y := Child(t, Cd(Toward(t, k)));
    if y.Node? {
      NodeBounds(y, t.k);
    }
    if c.Fr? && c.sib.Node? {
      SiblingBounds(c, t);
      PushSiblingPath(c, t, k);
    }
  }

  lemma PushSiblingPath(c: Ctx, t: Tree, k: int)
    requires t.Node? && c.Fr? && c.sib.Node? && OnDeletePath(c, k)
    requires if c.d.Left? then Above(Ent(c.sib), c.k) else Below(Ent(c.sib), c.k)
    ensures OnDeletePath(PushFromSibling(c, t).c, k)
  {
    NodeBounds(c.sib, c.k);
    if Child(c.sib, c.d).Node? {
      NodeBounds(Child(c.sib, c.d), c.k);
    }
  }

  /** The slot of the node with key `k` among the nodes of the path. */
  function FoundSlot(c: Ctx, k: int): Option<nat> {
    if c.Top? then None else if c.k == k then Some(c.x) else FoundSlot(c.up, k)
  }

  lemma {:induction false} FoundSlotHas(c: Ctx, k: int)
    ensures FoundSlot(c, k).Some? <==> CHas(c, k)
  {
    if c.Fr? {
      FoundSlotHas(c.up, k);
    }
  }

  /** The nodes that a push puts on the path do not hold `k`. */
  lemma PushFound(c: Ctx, t: Tree, k: int)
    requires t.Node? && OnDeletePath(c, k) && Sorted(Reading(c, t))
    ensures FoundSlot(Push(c, t, Toward(t, k)).c, k) == FoundSlot(c, k)
  {
    SortedParts(EntL(c) + Ent(t), EntR(c));
    SortedParts(EntL(c), Ent(t));
    NodeSorted(t);
    var y := Child(t, Cd(Toward(t, k)));
    if y.Node? {
      NodeBounds(y, t.k);
    }
    if c.Fr? && c.sib.Node? {
      SiblingBounds(c, t);
      PushSiblingFound(c, t, k);
    }
  }

  lemma PushSiblingFound(c: Ctx, t: Tree, k: int)
    requires t.Node? && c.Fr? && c.sib.Node? && OnDeletePath(c, k)
    requires if c.d.Left? then Above(Ent(c.sib), c.k) else Below(Ent(c.sib), c.k)
    ensures FoundSlot(PushFromSibling(c, t).c, k) == FoundSlot(c, k)
  {
    NodeBounds(c.sib, c.k);
    if Child(c.sib, c.d).Node? {
      NodeBounds(Child(c.sib, c.d), c.k);
    }
    var f := PushFromSibling(c, t);
    assert FoundSlot(c, k) == if c.k == k then Some(c.x) else FoundSlot(c.up, k);
    if Red(c.sib.l) || Red(c.sib.r) {
      assert FoundSlot(f.c.up, k) == FoundSlot(c.up, k);
    }
  }

  lemma PushReading(c: Ctx, t: Tree, d: Dir)
    requires t.Node?
    ensures var f := Push(c, t, d); Reading(f.c, f.t) == Reading(c, t)
  {
    if t.red || Red(Child(t, d)) {
    } else if Red(Child(t, Cd(d))) {
      PushRotationReading(c, t, d);
    } else if c.Fr? && c.sib.Node? {
      PushSiblingReading(c, t);
    }
  }

  lemma PushRotationReading(c: Ctx, t: Tree, d: Dir)
    requires t.Node? && !t.red && !Red(Child(t, d)) && Red(Child(t, Cd(d)))
    ensures var f := Push(c, t, d); Reading(f.c, f.t) == Reading(c, t)
  {
    var f := Push(c, t, d);
    var y := Child(t, Cd(d));
    var e, ey := [Entry(t.x, t.k, t.v)], [Entry(y.x, y.k, y.v)];
    if d.Left? {
      assert Ent(t) == Ent(t.l) + e + (Ent(y.l) + ey + Ent(y.r));
      assert Ent(f.t) == Ent(t.l) + e + Ent(y.l);
      Rotation(EntL(c), Ent(t.l), e, Ent(y.l), ey, Ent(y.r), EntR(c));
    } else {
      assert Ent(t) == (Ent(y.l) + ey + Ent(y.r)) + e + Ent(t.r);
      assert Ent(f.t) == Ent(y.r) + e + Ent(t.r);
      Rotation(EntL(c), Ent(y.l), ey, Ent(y.r), e, Ent(t.r), EntR(c));
    }
  }

  lemma PushSiblingReading(c: Ctx, t: Tree)
    requires t.Node? && c.Fr? && c.sib.Node?
    ensures var f := PushFromSibling(c, t); EntL(f.c) == EntL(c) && EntR(f.c) == EntR(c) && Ent(f.t) == Ent(t)
  {
    Recolour(c.sib, true);
    if Red(Child(c.sib, c.d)) {
      DoubleReading(c, t);
    }
    SingleReading(c, t);
  }

  lemma SingleReading(c: Ctx, t: Tree)
    requires t.Node? && c.Fr? && c.sib.Node?
    ensures var f := TakeSingle(c, t); EntL(f.c) == EntL(c) && EntR(f.c) == EntR(c)
  {
    var s := c.sib;
    var far, z := Child(s, Cd(c.d)), Child(s, c.d);
    Recolour(far, false);
    var ec, es := [Entry(c.x, c.k, c.v)], [Entry(s.x, s.k, s.v)];
    if c.d.Left? {
      MoveRight(ec, Ent(z), es, Ent(far), EntR(c.up));
    } else {
      MoveLeft(EntL(c.up), Ent(far), es, Ent(z), ec);
    }
  }

  lemma DoubleReading(c: Ctx, t: Tree)
    requires t.Node? && c.Fr? && c.sib.Node? && Red(Child(c.sib, c.d))
    ensures var f := TakeDouble(c, t); EntL(f.c) == EntL(c) && EntR(f.c) == EntR(c)
  {
    var s := c.sib;
    var far, z := Child(s, Cd(c.d)), Child(s, c.d);
    var ec, es, ez := [Entry(c.x, c.k, c.v)], [Entry(s.x, s.k, s.v)], [Entry(z.x, z.k, z.v)];
    var s' := Mk(c.d, s.x, false, s.k, s.v, Child(z, Cd(c.d)), far);
    if c.d.Left? {
      assert Ent(s) == (Ent(z.l) + ez + Ent(z.r)) + es + Ent(far);
      assert Ent(s') == Ent(z.r) + es + Ent(far);
      Carry(ec, Ent(z.l), ez, Ent(z.r), es, Ent(far), EntR(c.up));
    } else {
      assert Ent(s) == Ent(far) + es + (Ent(z.l) + ez + Ent(z.r));
      assert Ent(s') == Ent(far) + es + Ent(z.l);
      Carry(EntL(c.up), Ent(far), es, Ent(z.l), ez, Ent(z.r), ec);
    }
  }

  lemma PushUses(c: Ctx, t: Tree, d: Dir, i: nat)
    requires t.Node?
    ensures var f := Push(c, t, d); CUses(f.c, i) + Uses(f.t, i) == CUses(c, i) + Uses(t, i)
  {
    if c.Fr? && c.sib.Node? {
      PushSiblingUses(c, t, i);
    }
  }

  lemma PushSiblingUses(c: Ctx, t: Tree, i: nat)
    requires t.Node? && c.Fr? && c.sib.Node?
    ensures var f := PushFromSibling(c, t); CUses(f.c, i) == CUses(c, i) && Uses(f.t, i) == Uses(t, i)
  {
    var s := c.sib;
    if !Red(s.l) && !Red(s.r) {
      Recolour(s, true);
    } else if Red(Child(s, c.d)) {
      DoubleUses(c, t, i);
    } else {
      SingleUses(c, t, i);
    }
  }

  lemma SingleUses(c: Ctx, t: Tree, i: nat)
    requires t.Node? && c.Fr? && c.sib.Node?
    ensures CUses(TakeSingle(c, t).c, i) == CUses(c, i)
  {
    Recolour(Child(c.sib, Cd(c.d)), false);
    ChildUses(c.sib, c.d, i);
    var top := TakeSingle(c, t).c.up;
    assert CUses(top, i) == (if top.x == i then 1 else 0) + Uses(top.sib, i) + CUses(c.up, i);
  }

  lemma DoubleUses(c: Ctx, t: Tree, i: nat)
    requires t.Node? && c.Fr? && c.sib.Node? && Red(Child(c.sib, c.d))
    ensures CUses(TakeDouble(c, t).c, i) == CUses(c, i)
  {
    ChildUses(c.sib, c.d, i);
    ChildUses(Child(c.sib, c.d), c.d, i);
    var top := TakeDouble(c, t).c.up;
    ChildUses(top.sib, c.d, i);
    assert CUses(top, i) == (if top.x == i then 1 else 0) + Uses(top.sib, i) + CUses(c.up, i);
  }

  lemma ChildUses(t: Tree, d: Dir, i: nat)
    requires t.Node?
    ensures Uses(t, i) == (if t.x == i then 1 else 0) + Uses(Child(t, d), i) + Uses(Child(t, Cd(d)), i)
  {
  }

  lemma {:induction false} DeleteWalkReading(c: Ctx, t: Tree, k: int)
    requires t.Node? && OnDeletePath(c, k) && Sorted(Reading(c, t))
    ensures var f := DeleteWalk(c, t, k);
            Reading(f.c, f.t) == Reading(c, t) && OnDeletePath(f.c, k) && Child(f.t, Toward(f.t, k)).Leaf?
    decreases t
  {
    var d := Toward(t, k);
    var f := Push(c, t, d);
    PushReading(c, t, d);
    PushPath(c, t, k);
    if Child(f.t, d).Node? {
      DownSame(f.c, f.t, d);
      FillEnt(f.c, f.t);
      FillEnt(Down(f.c, f.t, d), Child(f.t, d));
      DeleteWalkReading(Down(f.c, f.t, d), Child(t, d), k);
    }
  }

  lemma {:induction false} DeleteWalkUses(c: Ctx, t: Tree, k: int, i: nat)
    requires t.Node?
    ensures var f := DeleteWalk(c, t, k); CUses(f.c, i) + Uses(f.t, i) == CUses(c, i) + Uses(t, i)
    decreases t
  {
    var d := Toward(t, k);
    var f := Push(c, t, d);
    PushUses(c, t, d, i);
    if Child(f.t, d).Node? {
      DownSame(f.c, f.t, d);
      FillUses(f.c, f.t, i);
      FillUses(Down(f.c, f.t, d), Child(f.t, d), i);
      DeleteWalkUses(Down(f.c, f.t, d), Child(t, d), k, i);
    }
  }

  /** Below the node that holds `k` the walk only turns right, so that node is read right after the hole. */
  lemma {:induction false} FoundIsNext(c: Ctx, k: int, nk: int, nv: int)
    requires CHas(c, k) && OnDeletePath(c, k) && Sorted(EntR(c))
    ensures var o := Overwrite(c, k, nk, nv);
            |EntR(c)| > 0 && EntR(c)[0].k == k && EntL(o) == EntL(c)
            && EntR(o) == [EntR(c)[0].(k := nk, v := nv)] + EntR(c)[1..]
            && forall i: nat :: CUses(o, i) == CUses(c, i)
  {
    if c.k == k {
      assert EntR(c) == [Entry(c.x, c.k, c.v)] + (Ent(c.sib) + EntR(c.up));
    } else if c.d.Left? {
      SortedParts([Entry(c.x, c.k, c.v)] + Ent(c.sib), EntR(c.up));
      assert ([Entry(c.x, c.k, c.v)] + Ent(c.sib))[0].k == c.k;
      FoundIsNext(c.up, k, nk, nv);
      assert false;
    } else {
      FoundIsNext(c.up, k, nk, nv);
    }
  }

  lemma {:induction false} CHasStrict(c: Ctx, k: int)
    requires OnDeletePath(c, k) && !CHas(c, k)
    ensures OnPath(c, k)
  {
    if c.Fr? {
      CHasStrict(c.up, k);
    }
  }

  /** What is known when the walk has reached the bottom. */
  predicate AtBottom(f: Focus, k: int) {
    f.t.Node? && OnDeletePath(f.c, k) && Sorted(Reading(f.c, f.t)) && Child(f.t, Toward(f.t, k)).Leaf?
  }

  /** The walk finds every key of the tree. */
  lemma BottomFinds(f: Focus, k: int)
    requires AtBottom(f, k)
    ensures WalkFound(f, k) <==> HasKey(Reading(f.c, f.t), k)
  {
    var s := Reading(f.c, f.t);
    SortedParts(EntL(f.c) + Ent(f.t), EntR(f.c));
    SortedParts(EntL(f.c), Ent(f.t));
    var n := |EntL(f.c)| + |Ent(f.t.l)|;
    assert s[n] == Entry(f.t.x, f.t.k, f.t.v);
    if f.t.k != k && CHas(f.c, k) {
      FoundIsNext(f.c, k, 0, 0);
      assert s[|EntL(f.c) + Ent(f.t)|].k == k;
    } else if f.t.k != k {
      CHasStrict(f.c, k);
      OnPathBounds(f.c, k);
      NodeSorted(f.t);
      forall i | 0 <= i < |s|
        ensures s[i].k != k
      {
        if i < |EntL(f.c)| {
          assert s[i] == EntL(f.c)[i];
        } else if i >= |EntL(f.c)| + |Ent(f.t)| {
          assert s[i] == EntR(f.c)[i - |EntL(f.c)| - |Ent(f.t)|];
        } else {
          BottomKeys(f.t, k, i - |EntL(f.c)|);
        }
      }
    }
  }

  lemma BottomKeys(t: Tree, k: int, i: nat)
    requires t.Node? && Sorted(Ent(t)) && t.k != k && Child(t, Toward(t, k)).Leaf? && i < |Ent(t)|
    ensures Ent(t)[i].k != k
  {
    NodeSorted(t);
    var n := |Ent(t.l)|;
    if i < n {
      assert Ent(t)[i] == Ent(t.l)[i];
    } else if i > n {
      assert Ent(t)[i] == Ent(t.r)[i - n - 1];
    }
  }

  lemma UnlinkRemoves(f: Focus, k: int)
    requires AtBottom(f, k) && WalkFound(f, k)
    ensures Pairs(Ent(Unlink(f, k))) == Without(Pairs(Reading(f.c, f.t)), k)
    ensures |Ent(Unlink(f, k))| == |Reading(f.c, f.t)| - 1
    ensures Sorted(Ent(Unlink(f, k)))
  {
    if f.t.k == k {
      UnlinkHere(f);
    } else {
      UnlinkPredecessor(f, k);
    }
  }

  lemma UnlinkHere(f: Focus)
    requires f.t.Node? && AtBottom(f, f.t.k)
    ensures var u := Ent(Unlink(f, f.t.k));
            Pairs(u) == Without(Pairs(Reading(f.c, f.t)), f.t.k) && |u| == |Reading(f.c, f.t)| - 1 && Sorted(u)
  {
    var t, e := f.t, Entry(f.t.x, f.t.k, f.t.v);
    FillEnt(f.c, t.r);
    assert Ent(t) == [e] + Ent(t.r);
    NodeMoves(EntL(f.c), e, Ent(t.r), EntR(f.c));
  }

  lemma NodeMoves(p: seq<Entry>, e: Entry, a: seq<Entry>, q: seq<Entry>)
    requires Sorted(p + ([e] + a) + q)
    ensures var s, u := p + ([e] + a) + q, p + a + q;
            Pairs(u) == Without(Pairs(s), e.k) && |u| == |s| - 1 && Sorted(u)
  {
    Assoc(p, [e], a);
    Assoc(p + [e], a, q);
    Assoc(p, a, q);
    SortedWithout(p, e, a + q);
    WithoutOne(p, e, a + q);
  }

  lemma UnlinkPredecessor(f: Focus, k: int)
    requires AtBottom(f, k) && f.t.k != k && CHas(f.c, k)
    ensures var u := Ent(Unlink(f, k));
            Pairs(u) == Without(Pairs(Reading(f.c, f.t)), k) && |u| == |Reading(f.c, f.t)| - 1 && Sorted(u)
  {
    var t, e := f.t, Entry(f.t.x, f.t.k, f.t.v);
    SortedParts(EntL(f.c) + Ent(t), EntR(f.c));
    FoundIsNext(f.c, k, t.k, t.v);
    FoundAbove(f, k);
    var o := Overwrite(f.c, k, t.k, t.v);
    FillEnt(o, t.l);
    assert Unlink(f, k) == Fill(o, t.l);
    assert Ent(t) == Ent(t.l) + [e];
    var g := EntR(f.c)[0];
    PredecessorMoves(EntL(f.c), Ent(t.l), e, g, EntR(f.c)[1..]);
    assert EntR(f.c) == [g] + EntR(f.c)[1..];
  }

  lemma PredecessorMoves(p: seq<Entry>, a: seq<Entry>, e: Entry, g: Entry, b: seq<Entry>)
    requires Sorted(p + (a + [e]) + ([g] + b))
    ensures var s := p + (a + [e]) + ([g] + b);
            var u := p + a + ([g.(k := e.k, v := e.v)] + b);
            Pairs(u) == Without(Pairs(s), g.k) && |u| == |s| - 1 && Sorted(u)
  {
    var e' := g.(k := e.k, v := e.v);
    Assoc(p, a, [e]);
    Assoc((p + a) + [e], [g], b);
    Assoc(p + a, [e'], b);
    SortedWithout((p + a) + [e], g, b);
    WithoutOne((p + a) + [e], g, b);
    RelocatedEntry(p + a, e, e', b);
  }

  lemma FoundAbove(f: Focus, k: int)
    requires AtBottom(f, k) && |EntR(f.c)| > 0 && EntR(f.c)[0].k == k
    ensures f.t.k < k && f.t.r.Leaf?
  {
    SortedParts(EntL(f.c) + Ent(f.t), EntR(f.c));
    var n := |EntL(f.c)| + |Ent(f.t.l)|;
    assert (EntL(f.c) + Ent(f.t))[n].k == f.t.k;
  }

  /** The same key and data read from another slot. */
  lemma RelocatedEntry(a: seq<Entry>, e: Entry, e': Entry, b: seq<Entry>)
    requires e.k == e'.k && e.v == e'.v
    ensures Pairs(a + [e'] + b) == Pairs(a + [e] + b)
    ensures Sorted(a + [e] + b) ==> Sorted(a + [e'] + b)
  {
    PairsAround(a, e, b);
    PairsAround(a, e', b);
    var s, s' := a + [e] + b, a + [e'] + b;
    assert |s| == |s'| && forall i :: 0 <= i < |s| ==> s[i].k == s'[i].k;
  }

  lemma SortedWithout(a: seq<Entry>, e: Entry, b: seq<Entry>)
    requires Sorted(a + [e] + b)
    ensures Below(a, e.k) && Above(b, e.k) && Sorted(a + b)
  {
    SortedParts(a + [e], b);
    SortedParts(a, [e]);
    assert [e][0] == e && (a + [e])[|a|] == e;
    assert forall i :: 0 <= i < |a| ==> (a + [e])[i] == a[i];
  }

  lemma UnlinkUses(f: Focus, k: int, i: nat)
    requires AtBottom(f, k) && WalkFound(f, k)
    ensures Uses(Unlink(f, k), i) == CUses(f.c, i) + Uses(f.t, i) - if f.t.x == i then 1 else 0
  {
    var rest := if f.t.l.Leaf? then f.t.r else f.t.l;
    SortedParts(EntL(f.c) + Ent(f.t), EntR(f.c));
    if f.t.k == k {
      FillUses(f.c, rest, i);
    } else {
      FoundIsNext(f.c, k, f.t.k, f.t.v);
      FillUses(Overwrite(f.c, k, f.t.k, f.t.v), rest, i);
    }
  }

  lemma {:induction false} RenameSame(t: Tree, from: nat, to: nat)
    ensures var u := Rename(t, from, to);
            Pairs(Ent(u)) == Pairs(Ent(t)) && |Ent(u)| == |Ent(t)|
            && (forall i :: 0 <= i < |Ent(t)| ==> Ent(u)[i].k == Ent(t)[i].k)
            && (NoRedRed(u) <==> NoRedRed(t)) && (Balanced(u) <==> Balanced(t)) && Bh(u) == Bh(t) && Red(u) == Red(t)
  {
    if t.Node? {
      var u := Rename(t, from, to);
      RenameSame(t.l, from, to);
      RenameSame(t.r, from, to);
      PairsAround(Ent(t.l), Entry(t.x, t.k, t.v), Ent(t.r));
      PairsAround(Ent(u.l), Entry(u.x, u.k, u.v), Ent(u.r));
    }
  }

  lemma {:induction false} RenameUses(t: Tree, from: nat, to: nat, i: nat)
    ensures Uses(Rename(t, from, to), i)
         == if from == to then Uses(t, i)
            else if i == from then 0
            else Uses(t, i) + if i == to then Uses(t, from) else 0
  {
    if t.Node? {
      RenameUses(t.l, from, to, i);
      RenameUses(t.r, from, to, i);
    }
  }

  /** The walk of a deletion in a tree that is more than the one node to be deleted. */
  lemma DeleteBottom(t: Tree, k: int)
    requires t.Node? && Sorted(Ent(t))
    ensures var f := DeleteWalk(Top, t, k);
            AtBottom(f, k) && Reading(f.c, f.t) == Ent(t) && (WalkFound(f, k) <==> HasKey(Ent(t), k))
  {
    assert Reading(Top, t) == Ent(t);
    DeleteWalkReading(Top, t, k);
    BottomFinds(DeleteWalk(Top, t, k), k);
  }

  /** Deletion removes exactly the key `k` from the ascending list of keys and data. */
  lemma DeleteRemoves(t: Tree, k: int)
    requires Sorted(Ent(t)) && !LosesKeys(t, k)
    ensures Pairs(Ent(Delete(t, k))) == Without(Pairs(Ent(t)), k)
    ensures Sorted(Ent(Delete(t, k)))
    ensures |Ent(Delete(t, k))| == |Ent(t)| - if HasKey(Ent(t), k) then 1 else 0
  {
    if t.Leaf? {
    } else if |Ent(t)| == 1 && t.k == k {
      assert Ent(t)[|Ent(t.l)|] == Entry(t.x, t.k, t.v);
      assert Ent(t) == [Entry(t.x, t.k, t.v)];
    } else {
      DeleteBottom(t, k);
      var f := DeleteWalk(Top, t, k);
      if WalkFound(f, k) {
        var u := Unlink(f, k);
        UnlinkRemoves(f, k);
        RenameSame(u, |Ent(t)| - 1, f.t.x);
        RenameSorted(u, |Ent(t)| - 1, f.t.x);
        Recolour(Rename(u, |Ent(t)| - 1, f.t.x), false);
      } else {
        WithoutAbsent(Ent(t), k);
        FillEnt(f.c, f.t);
        Recolour(Fill(f.c, f.t), false);
      }
    }
  }

  lemma RenameSorted(t: Tree, from: nat, to: nat)
    requires Sorted(Ent(t))
    ensures Sorted(Ent(Rename(t, from, to)))
  {
    RenameSame(t, from, to);
  }

  /** Memory stays compact: the slots after a deletion are 0 to size - 1 again. */
  lemma DeleteCompact(t: Tree, k: int)
    requires Sorted(Ent(t)) && Compact(t, |Ent(t)|) && !LosesKeys(t, k)
    ensures Compact(Delete(t, k), |Ent(Delete(t, k))|)
  {
    var n := |Ent(t)|;
    DeleteRemoves(t, k);
    if t.Node? && !(n == 1 && t.k == k) {
      DeleteBottom(t, k);
      var f := DeleteWalk(Top, t, k);
      var u := if WalkFound(f, k) then Rename(Unlink(f, k), n - 1, f.t.x) else Fill(f.c, f.t);
      forall i: nat
        ensures Uses(Delete(t, k), i) == if i < |Ent(Delete(t, k))| then 1 else 0
      {
        DeleteUses(t, k, f, i);
        Recolour(u, false);
      }
    }
  }

  lemma DeleteUses(t: Tree, k: int, f: Focus, i: nat)
    requires t.Node? && Compact(t, |Ent(t)|) && f == DeleteWalk(Top, t, k) && AtBottom(f, k)
    ensures WalkFound(f, k) ==>
              Uses(Rename(Unlink(f, k), |Ent(t)| - 1, f.t.x), i) == if i < |Ent(t)| - 1 then 1 else 0
    ensures !WalkFound(f, k) ==> Uses(Fill(f.c, f.t), i) == if i < |Ent(t)| then 1 else 0
  {
    var n := |Ent(t)|;
    assert n > 0;
    DeleteWalkUses(Top, t, k, i);
    DeleteWalkUses(Top, t, k, f.t.x);
    DeleteWalkUses(Top, t, k, n - 1);
    assert Uses(f.t, f.t.x) >= 1;
    if WalkFound(f, k) {
      RenameUses(Unlink(f, k), n - 1, f.t.x, i);
      UnlinkUses(f, k, i);
      UnlinkUses(f, k, n - 1);
    } else {
      FillUses(f.c, f.t, i);
    }
  }

}
