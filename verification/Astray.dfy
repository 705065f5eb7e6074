/** Another way on from the run of module `LostKey`, to a tree in which an insertion rotates with a stale
    great-grandfather. */
module Astray {
  import opened RbDelete
  import opened RbInsert
  import opened RbModel
  import opened RunSteps
  import opened TreeMap
  import opened LostKey

  function T44(): Tree {
    B(3, R(12, Leaf, 4, Leaf), 5, R(10, B(9, B(11, Leaf, 7, Leaf), 8, B(4, Leaf, 9, Leaf)), 11, B(8, B(7, Leaf, 13,
      Leaf), 14, B(1, B(2, Leaf, 16, Leaf), 17, B(5, B(6, Leaf, 19, Leaf), 20, B(0, Leaf, 22, Leaf))))))
  }

  lemma Eval44()
    ensures DeleteSized(T43(), 3, 13) == T44() && !Finds(T43(), 3) && !RootOnly(T43(), 3)
  {
  }

  function T45(): Tree {
    B(3, R(12, Leaf, 4, Leaf), 5, B(10, B(9, R(11, Leaf, 7, Leaf), 8, R(4, Leaf, 9, Leaf)), 11, R(8, B(7, Leaf, 13,
      Leaf), 14, B(1, B(2, Leaf, 16, Leaf), 17, B(5, B(6, Leaf, 19, Leaf), 20, B(0, Leaf, 22, Leaf))))))
  }

  lemma Eval45()
    ensures DeleteSized(T44(), 6, 13) == T45() && !Finds(T44(), 6) && !RootOnly(T44(), 6)
  {
  }

  function T46(): Tree {
    B(7, Leaf, 4, R(3, Leaf, 5, B(10, B(9, R(11, Leaf, 7, Leaf), 8, R(4, Leaf, 9, Leaf)), 11, B(8, Leaf, 14, R(1, B(2,
      Leaf, 16, Leaf), 17, B(5, B(6, Leaf, 19, Leaf), 20, B(0, Leaf, 22, Leaf)))))))
  }

  lemma Eval46()
    ensures DeleteSized(T45(), 13, 13) == T46() && Finds(T45(), 13) && !RootOnly(T45(), 13)
  {
  }

  function T47(): Tree {
    B(7, Leaf, 4, R(3, Leaf, 5, B(10, B(9, R(11, Leaf, 7, Leaf), 8, R(4, Leaf, 9, Leaf)), 11, B(8, Leaf, 14, R(1, B(2,
      Leaf, 16, Leaf), 17, B(5, B(6, R(12, Leaf, 18, Leaf), 19, Leaf), 20, B(0, Leaf, 22, Leaf)))))))
  }

  /** Where the walk of that insertion has got after 4 steps. */
  function Half47(): Focus {
    Focus(Fr(Right, 8, false, 14, 0, Leaf, Fr(Right, 10, false, 11, 0, B(9, R(11, Leaf, 7, Leaf), 8, R(4, Leaf, 9,
      Leaf)), Fr(Right, 3, true, 5, 0, Leaf, Fr(Right, 7, false, 4, 0, Leaf, Top)))), R(1, B(2, Leaf, 16, Leaf), 17,
      B(5, B(6, Leaf, 19, Leaf), 20, B(0, Leaf, 22, Leaf))))
  }

  lemma Walk47()
    ensures OnPath(Half47().c, 18)
    ensures InsertWalk(Top, T46(), 12, 18, 0, LAST) == InsertWalk(Half47().c, Half47().t, 12, 18, 0, LAST)
  {
  }

  lemma Path47()
    requires OnPath(Half47().c, 18)
    ensures InsertWalk(Half47().c, Half47().t, 12, 18, 0, LAST) == T47()
  {
  }

  lemma Side47()
    ensures !Finds(T46(), 18) && NoRedRedBelow(T46()) && T46().Node?
  {
  }

  lemma Eval47()
    ensures Insert(T46(), 12, 18, 0, LAST) == T47()
  {
    hide T46, Half47, InsertWalk;
    Walk47();
    Path47();
    Side47();
  }

  function T48(): Tree {
    B(7, Leaf, 4, R(3, Leaf, 5, B(10, B(9, R(11, Leaf, 7, Leaf), 8, R(4, Leaf, 9, Leaf)), 11, B(8, Leaf, 14, B(1, Leaf,
      17, R(5, B(6, R(2, Leaf, 18, Leaf), 19, Leaf), 20, B(0, Leaf, 22, Leaf)))))))
  }

  /** Where the walk of that deletion ends. */
  function Bottom48(): Focus {
    Focus(Fr(Left, 1, false, 17, 0, R(5, B(6, R(12, Leaf, 18, Leaf), 19, Leaf), 20, B(0, Leaf, 22, Leaf)), Fr(Right, 8,
      false, 14, 0, Leaf, Fr(Right, 10, false, 11, 0, B(9, R(11, Leaf, 7, Leaf), 8, R(4, Leaf, 9, Leaf)), Fr(Right, 3,
      true, 5, 0, Leaf, Fr(Right, 7, false, 4, 0, Leaf, Top))))), R(2, Leaf, 16, Leaf))
  }

  lemma Walk48()
    ensures DeleteWalk(Top, T47(), 16) == Bottom48()
  {
  }

  lemma Path48()
    ensures Bottom48().t.Node? && WalkFound(Bottom48(), 16)
    ensures SetRed(Rename(Unlink(Bottom48(), 16), 12, Bottom48().t.x), false) == T48()
  {
  }

  lemma Side48()
    ensures Finds(T47(), 16) && !RootOnly(T47(), 16) && T47().Node?
  {
  }

  lemma Eval48()
    ensures DeleteSized(T47(), 16, 13) == T48()
  {
    hide T47, Bottom48, WalkFound, DeleteWalk, Fill, Unlink;
    Walk48();
    Path48();
    Side48();
  }

  function T49(): Tree {
    B(7, Leaf, 4, R(3, Leaf, 5, R(4, B(9, R(1, Leaf, 7, Leaf), 8, Leaf), 9, B(10, Leaf, 11, R(8, Leaf, 14, B(5, B(6,
      R(2, Leaf, 18, Leaf), 19, Leaf), 20, B(0, Leaf, 22, Leaf)))))))
  }

  /** Where the walk of that deletion ends. */
  function Bottom49(): Focus {
    Focus(Fr(Left, 5, false, 20, 0, B(0, Leaf, 22, Leaf), Fr(Right, 8, true, 14, 0, Leaf, Fr(Right, 10, false, 11, 0,
      Leaf, Fr(Right, 4, true, 9, 0, B(9, R(11, Leaf, 7, Leaf), 8, Leaf), Fr(Right, 3, true, 5, 0, Leaf, Fr(Right, 7,
      false, 4, 0, Leaf, Top)))))), R(1, Leaf, 17, B(6, R(2, Leaf, 18, Leaf), 19, Leaf)))
  }

  lemma Walk49()
    ensures DeleteWalk(Top, T48(), 17) == Bottom49()
  {
  }

  lemma Path49()
    ensures Bottom49().t.Node? && WalkFound(Bottom49(), 17)
    ensures SetRed(Rename(Unlink(Bottom49(), 17), 11, Bottom49().t.x), false) == T49()
  {
  }

  lemma Side49()
    ensures Finds(T48(), 17) && !RootOnly(T48(), 17) && T48().Node?
  {
  }

  lemma Eval49()
    ensures DeleteSized(T48(), 17, 12) == T49()
  {
    hide T48, Bottom49, WalkFound, DeleteWalk, Fill, Unlink;
    Walk49();
    Path49();
    Side49();
  }

  function T50(): Tree {
    B(7, Leaf, 4, R(3, Leaf, 5, R(4, B(9, R(1, Leaf, 7, Leaf), 8, Leaf), 9, B(10, Leaf, 11, R(8, Leaf, 14, R(6, B(2,
      Leaf, 18, Leaf), 19, B(5, Leaf, 20, R(0, Leaf, 22, Leaf))))))))
  }

  /** Where the walk of that deletion ends. */
  function Bottom50(): Focus {
    Focus(Fr(Right, 5, false, 20, 0, Leaf, Fr(Right, 6, true, 19, 0, B(2, Leaf, 18, Leaf), Fr(Right, 8, true, 14, 0,
      Leaf, Fr(Right, 10, false, 11, 0, Leaf, Fr(Right, 4, true, 9, 0, B(9, R(1, Leaf, 7, Leaf), 8, Leaf), Fr(Right, 3,
      true, 5, 0, Leaf, Fr(Right, 7, false, 4, 0, Leaf, Top))))))), R(0, Leaf, 22, Leaf))
  }

  lemma Walk50()
    ensures DeleteWalk(Top, T49(), 21) == Bottom50()
  {
  }

  lemma Path50()
    ensures Bottom50().t.Node? && !WalkFound(Bottom50(), 21)
    ensures SetRed(Fill(Bottom50().c, Bottom50().t), false) == T50()
  {
  }

  lemma Side50()
    ensures !Finds(T49(), 21) && !RootOnly(T49(), 21) && T49().Node?
  {
  }

  lemma Eval50()
    ensures DeleteSized(T49(), 21, 11) == T50()
  {
    hide T49, Bottom50, WalkFound, DeleteWalk, Fill, Unlink;
    Walk50();
    Path50();
    Side50();
  }

  function T51(): Tree {
    B(7, Leaf, 4, R(3, Leaf, 5, R(4, B(9, R(1, Leaf, 7, Leaf), 8, Leaf), 9, B(8, R(10, Leaf, 11, Leaf), 14, R(6, B(2,
      Leaf, 18, Leaf), 19, B(5, Leaf, 20, R(0, Leaf, 22, Leaf)))))))
  }

  lemma Eval51()
    ensures DeleteSized(T50(), 10, 11) == T51() && !Finds(T50(), 10) && !RootOnly(T50(), 10)
  {
  }

  method Run51() returns (ops: seq<Op>)
    ensures Reached(ops, 51, T51(), 11)
  {
    hide *;
    ops := Run43();
    Eval44();
    ops := Removes(ops, 43, T43(), 13, 3);
    Eval45();
    ops := Removes(ops, 44, T44(), 13, 6);
    Eval46();
    ops := Removes(ops, 45, T45(), 13, 13);
    Eval47();
    Side47();
    ops := Adds(ops, 46, T46(), 12, 18);
    Eval48();
    Side48();
    ops := Removes(ops, 47, T47(), 13, 16);
    Eval49();
    Side49();
    ops := Removes(ops, 48, T48(), 12, 17);
    Eval50();
    Side50();
    ops := Removes(ops, 49, T49(), 11, 21);
    Eval51();
    ops := Removes(ops, 50, T50(), 11, 10);
  }

  lemma Unsteady()
    ensures !InsertsSteadily(T51(), 10)
  {
  }

  /** Deletions that lose no key can still leave red-red edges on which an insertion goes astray. */
  method AstrayRun() returns (ops: seq<Op>)
    ensures |ops| == 51 && Sound(ops) && !InsertsSteadily(Run(ops), 10)
  {
    hide T51, InsertsSteadily;
    ops := Run51();
    Unsteady();
  }

}
