/** Runs of operations followed tree by tree. */
module RunSteps {
  import opened RbModel
  import opened RbInsert
  import opened RbDelete
  import opened TreeMap

  const LAST: Rewrite := (before, now) => now

  function B(x: nat, l: Tree, k: int, r: Tree): Tree {
    Node(x, false, l, k, 0, r)
  }

  function R(x: nat, l: Tree, k: int, r: Tree): Tree {
    Node(x, true, l, k, 0, r)
  }

  /** A sound run of `m` operations that ends with the tree `t` of `n` nodes. */
  predicate Reached(ops: seq<Op>, m: nat, t: Tree, n: nat) {
    |ops| == m && Sound(ops) && Run(ops) == t && |Ent(t)| == n
  }

  method NoSteps() returns (ops: seq<Op>)
    ensures Reached(ops, 0, Leaf, 0) && Safe(ops)
  {
    ops := [];
  }

  /** The run goes on with the insertion of `k`. */
  method Adds(ops: seq<Op>, m: nat, t: Tree, n: nat, k: int) returns (run: seq<Op>)
    requires Reached(ops, m, t, n) && (NoRedRedBelow(t) || InsertsSteadily(t, k))
    ensures Reached(run, m + 1, Insert(t, n, k, 0, LAST), if Finds(t, k) then n else n + 1)
    ensures run == ops + [Insertion(k, 0, LAST)] && (Safe(ops) ==> Safe(run))
  {
    run := ops + [Insertion(k, 0, LAST)];
    assert run[..|run| - 1] == ops;
    RunKeeps(ops);
    if NoRedRedBelow(t) {
      InsertKeepsNoRed(t, n, k, 0, LAST);
    }
    FindsHasKey(t, k);
    InsertPuts(t, n, k, 0, LAST);
    PutSorted(Ent(t), n, k, 0, LAST);
  }

  /** Deletion from a tree of `n` nodes. */
  function DeleteSized(t: Tree, k: int, n: nat): Tree {
    if t.Leaf? || n == 0 || (n == 1 && t.k == k) then
      Leaf
    else
      var f := DeleteWalk(Top, t, k);
      SetRed(if WalkFound(f, k) then Rename(Unlink(f, k), n - 1, f.t.x) else Fill(f.c, f.t), false)
  }

  /** The run goes on with the deletion of `k`. */
  method Removes(ops: seq<Op>, m: nat, t: Tree, n: nat, k: int) returns (run: seq<Op>)
    requires Reached(ops, m, t, n) && !RootOnly(t, k)
    ensures Reached(run, m + 1, DeleteSized(t, k, n), if Finds(t, k) then n - 1 else n)
    ensures run == ops + [Deletion(k)]
  {
    run := ops + [Deletion(k)];
    assert run[..|run| - 1] == ops;
    RunKeeps(ops);
    assert t.Node? ==> n > 0;
    assert Delete(t, k) == DeleteSized(t, k, n);
    hide Delete, DeleteSized, Finds, RootOnly, Sorted;
    DeleteRemoves(t, k);
    FindsHasKey(t, k);
  }

}
