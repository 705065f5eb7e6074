/** Whole runs of the in-place tree operations, and runs that go wrong. */
module TreeRun {
  import opened RbDelete
  import opened RbDeleteColours
  import opened RbInsert
  import opened RbModel
  import opened RunSteps
  import opened SMap
  import opened STree
  import opened TreeArray
  import opened TreeMap
  import opened Wrappers
  import Astray
  import LostKey
  import TooHigh

  lemma SizeStep(t: Tree, op: Op)
    requires Sorted(Ent(t)) && Harmless(t, op)
    ensures |Ent(Apply(t, op))| <= |Ent(t)| + 1
  {
    match op
    case Insertion(k, v, rw) =>
      InsertPuts(t, |Ent(t)|, k, v, rw);
      PutSorted(Ent(t), |Ent(t)|, k, v, rw);
    case Deletion(k) => DeleteRemoves(t, k);
  }

  /** What the operations answer: insertions succeed, deletions tell whether the key was there. */
  function Answers(ops: seq<Op>): seq<bool> {
    if ops == [] then []
    else
      var before, op := ops[..|ops| - 1], ops[|ops| - 1];
      Answers(before) + [if op.Deletion? then op.k in RunMap(before) else true]
  }

  /** One operation in place; `harmed` tells that the array no longer holds the entries it should. */
  method Call(t: Tree32, op: Op) returns (ok: bool, harmed: bool)
    requires t.Holds() && |t.nodes| < NIL
    modifies t
    ensures harmed == !Harmless(old(t.tree), op)
    ensures !harmed ==> t.Holds() && |t.nodes| <= old(|t.nodes|) + 1 && t.tree == Apply(old(t.tree), op)
                        && Contents(t.tree) == ApplyToMap(Contents(old(t.tree)), op)
    ensures !harmed ==> ok == if op.Deletion? then op.k in Contents(old(t.tree)) else true
    ensures harmed ==> !t.Represents(ApplyToMap(Contents(old(t.tree)), op))
  {
    hide Contents, Sorted, Weak, LosesKeys, InsertsSteadily, RbInsert.Insert, RbDelete.Delete, Bad;
    if Harmless(t.tree, op) {
      SizeStep(t.tree, op);
    }
    match op {
      case Insertion(k, v, rw) =>
        ok, harmed := t.InsertRw(k, v, rw);
      case Deletion(k) =>
        harmed := t.WouldLose(k);
        ok := t.Delete(k);
    }
  }

  /** Any run on a new tree, up to the first operation that harms the array. Up to there array and answers are those of
      the model run and the entries those of the map, balanced or not, and every lookup agrees. A sound run is one that
      is never harmed; a safe one keeps the tree red-black as well. */
  method Simulate(ops: seq<Op>, probe: int)
    returns (t: Tree32, answers: seq<bool>, found: Option<int>, done: nat)
    requires |ops| < NIL
    ensures fresh(t) && done <= |ops| && Sound(ops[..done]) && answers == Answers(ops[..done])
    ensures done == |ops| <==> Sound(ops)
    ensures if done < |ops| then
              !Harmless(Run(ops[..done]), ops[done]) && !t.Represents(RunMap(ops[..done + 1]))
            else
              t.Holds() && t.tree == Run(ops) && Contents(t.tree) == RunMap(ops) && |t.nodes| <= |ops|
              && found == Lookup(RunMap(ops), probe) && (Safe(ops) ==> t.Valid())
  {
    hide Contents, Sorted, Weak, Harmless, Apply, ApplyToMap, Compact;
    t := new Tree32();
    answers, found, done := [], None, 0;
    RunKeeps([]);
    while done < |ops|
      invariant done <= |ops| && fresh(t) && t.Holds() && |t.nodes| <= done && Sound(ops[..done])
      invariant t.tree == Run(ops[..done]) && Contents(t.tree) == RunMap(ops[..done])
      invariant answers == Answers(ops[..done])
    {
      assert ops[..done + 1][..done] == ops[..done];
      var ok, harmed := Call(t, ops[done]);
      if harmed {
        if Sound(ops) {
          HarmlessAt(ops, done);
        }
        return;
      }
      answers := answers + [ok];
      done := done + 1;
    }
    assert ops[..|ops|] == ops;
    if Safe(ops) {
      RunBalanced(ops);
    }
    found := LookUp(t, probe);
  }

  method LookUp(t: Tree32, k: int) returns (found: Option<int>)
    requires t.Holds()
    ensures found == Lookup(Contents(t.tree), k)
  {
    found := None;
    if t.nodes == [] {
      EmptyContents(t.tree);
      return;
    }
    hide Contents;
    var x := t.Locate(k);
    if x != NIL {
      found := Some(t.nodes[x].v);
    }
  }

  lemma {:induction false} SoundPrefix(ops: seq<Op>, n: nat)
    requires Sound(ops) && n <= |ops|
    ensures Sound(ops[..n])
  {
    if n < |ops| {
      var p := ops[..|ops| - 1];
      SoundPrefix(p, n);
      assert p[..n] == ops[..n];
    } else {
      assert ops[..n] == ops;
    }
  }

  lemma HarmlessAt(ops: seq<Op>, i: nat)
    requires Sound(ops) && i < |ops|
    ensures Harmless(Run(ops[..i]), ops[i])
  {
    SoundPrefix(ops, i + 1);
    assert ops[..i + 1][..i] == ops[..i];
  }

  /* ---- three ways to go wrong ---- */

  /** One operation more after a sound run, in place. */
  method OneMore(ops: seq<Op>, op: Op) returns (t: Tree32)
    requires Sound(ops) && |ops| + 1 < NIL && !Harmless(Run(ops), op)
    ensures !t.Represents(RunMap(ops + [op]))
  {
    var all := ops + [op];
    var answers, found, done;
    t, answers, found, done := Simulate(all, 0);
    assert all[..|all| - 1] == ops;
    if done < |ops| {
      assert all[..done] == ops[..done];
      HarmlessAt(ops, done);
    }
    assert all[..|ops| + 1] == all;
  }

  /** A deletion that loses other keys. */
  method LoseKey() returns (ops: seq<Op>, t: Tree32)
    ensures |ops| == 48 && Sound(ops) && !t.Represents(RunMap(ops + [Deletion(5)]))
  {
    ops := LostKey.LosingRun();
    t := OneMore(ops, Deletion(5));
  }

  /** An insertion that loses the entries. */
  method GoAstray() returns (ops: seq<Op>, t: Tree32)
    ensures |ops| == 51 && Sound(ops) && !t.Represents(RunMap(ops + [Insertion(10, 0, LAST)]))
  {
    ops := Astray.AstrayRun();
    t := OneMore(ops, Insertion(10, 0, LAST));
  }

  /** A scan of all keys that leaves its stack. */
  method LeaveStack() returns (ops: seq<Op>, inside: bool)
    ensures |ops| == 54 && Sound(ops) && !inside
  {
    ops := TooHigh.HighRun();
    var t, answers, found, done := Simulate(ops, 0);
    var nelems, calls;
    nelems, calls, inside := Itr(t, 0, 22, None);
  }

}
