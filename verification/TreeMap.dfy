/** The tree as a finite map, over whole runs of operations. */
module TreeMap {
  import opened RbModel
  import opened RbInsert
  import opened RbDelete
  import opened RbDeleteColours
  import opened RbDeleteRedRed
  import opened Wrappers

  function Dict(p: seq<(int, int)>): map<int, int> {
    if p == [] then map[] else Dict(p[1..])[p[0].0 := p[0].1]
  }

  /** The finite map from keys to data that a tree stands for. */
  function Contents(t: Tree): map<int, int> {
    Dict(Pairs(Ent(t)))
  }

  lemma EmptyContents(t: Tree)
    requires |Ent(t)| == 0
    ensures t.Leaf? && Contents(t) == map[]
  {
  }

  function Lookup(m: map<int, int>, k: int): Option<int> {
    if k in m then Some(m[k]) else None
  }

  lemma {:induction false} DictKeys(s: seq<Entry>, k: int)
    ensures k in Dict(Pairs(s)) <==> HasKey(s, k)
  {
    if s != [] {
      DictKeys(s[1..], k);
      HasKeyConcat([s[0]], s[1..], k);
      assert s == [s[0]] + s[1..];
      assert [s[0]][0].k == s[0].k;
    }
  }

  lemma {:induction false} DictAt(s: seq<Entry>, i: nat)
    requires Sorted(s) && i < |s|
    ensures s[i].k in Dict(Pairs(s)) && Dict(Pairs(s))[s[i].k] == s[i].v
  {
    if i > 0 {
      assert Sorted(s[1..]) by { SortedTail(s); }
      DictAt(s[1..], i - 1);
      assert s[0].k < s[i].k;
    }
  }

  lemma SortedTail(s: seq<Entry>)
    requires Sorted(s) && s != []
    ensures Sorted(s[1..]) && Above(s[1..], s[0].k)
  {
    assert s == [s[0]] + s[1..];
    SortedParts([s[0]], s[1..]);
    assert [s[0]][0] == s[0];
  }

  lemma {:induction false} DictWithout(p: seq<(int, int)>, k: int)
    ensures Dict(Without(p, k)) == Dict(p) - {k}
  {
    if p != [] {
      DictWithout(p[1..], k);
      var w := Without(p[1..], k);
      if p[0].0 == k {
        assert [] + w == w;
      } else {
        assert ([p[0]] + w)[1..] == w;
      }
    }
  }

  lemma {:induction false} DictPut(s: seq<Entry>, n: nat, k: int, v: int, rw: Rewrite)
    requires Sorted(s)
    ensures Dict(Pairs(Put(s, n, k, v, rw))) == Dict(Pairs(s))[k := rw(Lookup(Dict(Pairs(s)), k), v)]
  {
    if s == [] {
    } else if s[0].k < k {
      SortedTail(s);
      DictPut(s[1..], n, k, v, rw);
      assert ([s[0]] + Put(s[1..], n, k, v, rw))[1..] == Put(s[1..], n, k, v, rw);
    } else if s[0].k == k {
      assert ([s[0].(v := rw(Some(s[0].v), v))] + s[1..])[1..] == s[1..];
    } else {
      DictKeys(s, k);
      assert ([Entry(n, k, rw(None, v))] + s)[1..] == s;
      assert !HasKey(s, k);
    }
  }

  /** Insertion is a map update; the data comes from the rewrite callback. */
  lemma InsertContents(t: Tree, n: nat, k: int, v: int, rw: Rewrite)
    requires Sorted(Ent(t))
    ensures Contents(Insert(t, n, k, v, rw)) == Contents(t)[k := rw(Lookup(Contents(t), k), v)]
  {
    InsertPuts(t, n, k, v, rw);
    DictPut(Ent(t), n, k, v, rw);
  }

  /** Deletion is removal from the map. */
  lemma DeleteContents(t: Tree, k: int)
    requires Sorted(Ent(t)) && !LosesKeys(t, k)
    ensures Contents(Delete(t, k)) == Contents(t) - {k}
    ensures k in Contents(t) <==> HasKey(Ent(t), k)
  {
    DeleteRemoves(t, k);
    DictWithout(Pairs(Ent(t)), k);
    DictKeys(Ent(t), k);
  }

  /** The search meets the node that the map tells. */
  lemma {:induction false} FindsContents(t: Tree, k: int)
    requires Sorted(Ent(t))
    ensures Finds(t, k) <==> k in Contents(t)
  {
    FindsHasKey(t, k);
    DictKeys(Ent(t), k);
  }

  /** A node anywhere in a search tree is an entry of the map. */
  lemma FocusContents(c: Ctx, t: Tree)
    requires t.Node? && Sorted(Ent(Fill(c, t)))
    ensures t.k in Contents(Fill(c, t)) && Contents(Fill(c, t))[t.k] == t.v
  {
    var s := Ent(Fill(c, t));
    var n := |EntL(c)| + |Ent(t.l)|;
    FillEnt(c, t);
    assert s[n] == Entry(t.x, t.k, t.v);
    DictAt(s, n);
  }

  /* ---- runs ---- */

  datatype Op = Insertion(k: int, v: int, rw: Rewrite) | Deletion(k: int)

  function Apply(t: Tree, op: Op): Tree {
    match op
    case Insertion(k, v, rw) => Insert(t, |Ent(t)|, k, v, rw)
    case Deletion(k) => Delete(t, k)
  }

  function ApplyToMap(m: map<int, int>, op: Op): map<int, int> {
    match op
    case Insertion(k, v, rw) => m[k := rw(Lookup(m, k), v)]
    case Deletion(k) => m - {k}
  }

  /** The tree and the map after a run from empty. */
  function Run(ops: seq<Op>): Tree {
    if ops == [] then Leaf else Apply(Run(ops[..|ops| - 1]), ops[|ops| - 1])
  }

  function RunMap(ops: seq<Op>): map<int, int> {
    if ops == [] then map[] else ApplyToMap(RunMap(ops[..|ops| - 1]), ops[|ops| - 1])
  }

  /** What keeps a call from losing entries, balanced or not. */
  predicate Harmless(t: Tree, op: Op) {
    match op
    case Insertion(k, _, _) => InsertsSteadily(t, k)
    case Deletion(k) => !LosesKeys(t, k)
  }

  /** Every call of the run is harmless for the tree it meets. */
  predicate Sound(ops: seq<Op>) {
    ops != [] ==>
      var before := ops[..|ops| - 1];
      Sound(before) && Harmless(Run(before), ops[|ops| - 1])
  }

  /** No deletion of the run loses entries or leaves a red-red edge. */
  predicate Tidy(ops: seq<Op>) {
    ops != [] ==>
      var before := ops[..|ops| - 1];
      var op := ops[|ops| - 1];
      Tidy(before) && (op.Deletion? ==> !LosesKeys(Run(before), op.k) && !Clashes(Run(before), op.k))
  }

  /** No deletion of the run meets the bad shape. */
  predicate Safe(ops: seq<Op>) {
    ops != [] ==>
      var before := ops[..|ops| - 1];
      var op := ops[|ops| - 1];
      Safe(before) && (op.Deletion? ==> !Bad(Run(before), op.k))
  }

  /** After every sound run of insertions (of absent or present keys) and deletions the tree is a search tree in slots
      0 to size - 1 and agrees with the map, whether or not it is still balanced. */
  lemma {:induction false} RunKeeps(ops: seq<Op>)
    requires Sound(ops)
    ensures var t := Run(ops); Sorted(Ent(t)) && Compact(t, |Ent(t)|) && Contents(t) == RunMap(ops)
  {
    if ops != [] {
      var t := Run(ops[..|ops| - 1]);
      RunKeeps(ops[..|ops| - 1]);
      match ops[|ops| - 1]
      case Insertion(k, v, rw) =>
        InsertPuts(t, |Ent(t)|, k, v, rw);
        PutSorted(Ent(t), |Ent(t)|, k, v, rw);
        InsertCompact(t, k, v, rw);
        InsertContents(t, |Ent(t)|, k, v, rw);
      case Deletion(k) =>
        DeleteRemoves(t, k);
        DeleteCompact(t, k);
        DeleteContents(t, k);
    }
  }

  /** Tidy runs are sound: where deletions leave no red-red edge insertions need no condition. */
  lemma {:induction false} RunTidy(ops: seq<Op>)
    requires Tidy(ops)
    ensures Sound(ops) && NoRedRedBelow(Run(ops))
  {
    if ops != [] {
      var t := Run(ops[..|ops| - 1]);
      RunTidy(ops[..|ops| - 1]);
      match ops[|ops| - 1]
      case Insertion(k, v, rw) => InsertKeepsNoRed(t, |Ent(t)|, k, v, rw);
      case Deletion(k) => DeleteNoRedIffNoClash(t, k);
    }
  }

  /** Safe runs are tidy, and red-black with the root counted as black throughout. */
  lemma {:induction false} RunBalanced(ops: seq<Op>)
    requires Safe(ops)
    ensures Tidy(ops) && Sound(ops) && Weak(Run(ops))
  {
    if ops != [] {
      var t := Run(ops[..|ops| - 1]);
      RunBalanced(ops[..|ops| - 1]);
      RunKeeps(ops[..|ops| - 1]);
      match ops[|ops| - 1]
      case Insertion(k, v, rw) =>
        InsertKeepsNoRed(t, |Ent(t)|, k, v, rw);
        InsertKeepsRedBlack(t, |Ent(t)|, k, v, rw);
      case Deletion(k) =>
        WeakLosesNothing(t, k);
        WeakNoClash(t, k);
        DeleteStrictIffNotBad(t, k);
    }
  }

  /** The first deletion that meets the bad shape costs the balance only: neither it nor any insertion after it loses
      an entry or leaves a red-red edge. */
  lemma {:induction false} RunPastBad(ops: seq<Op>, k: int, more: seq<Op>)
    requires Safe(ops) && forall i :: 0 <= i < |more| ==> more[i].Insertion?
    ensures Tidy(ops + [Deletion(k)] + more)
  {
    var run := ops + [Deletion(k)] + more;
    var before := run[..|run| - 1];
    if more == [] {
      assert before == ops;
      RunBalanced(ops);
      RunKeeps(ops);
      WeakLosesNothing(Run(ops), k);
      WeakNoClash(Run(ops), k);
    } else {
      assert before == ops + [Deletion(k)] + more[..|more| - 1];
      RunPastBad(ops, k, more[..|more| - 1]);
      assert run[|run| - 1] == more[|more| - 1];
    }
  }

  /** Only keys that are absent when they are inserted. */
  predicate NewKeys(ops: seq<Op>) {
    ops != [] ==>
      var before := ops[..|ops| - 1];
      var op := ops[|ops| - 1];
      NewKeys(before) && (op.Insertion? ==> op.k !in RunMap(before))
  }

  /** Runs that insert absent keys only are safe, and red-black in the strict sense throughout. */
  lemma {:induction false} RunStrict(ops: seq<Op>)
    requires NewKeys(ops)
    ensures Safe(ops) && Strict(Run(ops))
  {
    if ops != [] {
      var before := ops[..|ops| - 1];
      var t := Run(before);
      RunStrict(before);
      RunBalanced(before);
      RunKeeps(before);
      match ops[|ops| - 1]
      case Insertion(k, v, rw) =>
        DictKeys(Ent(t), k);
        InsertKeepsRedBlack(t, |Ent(t)|, k, v, rw);
      case Deletion(k) =>
        DeleteKeepsStrict(t, k);
    }
  }

}
