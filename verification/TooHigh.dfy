/** The run goes on to a tree that is too high for the stack of a range scan. */
module TooHigh {
  import opened Bits
  import opened RbDelete
  import opened RbInsert
  import opened RbModel
  import opened RunSteps
  import opened TreeMap
  import opened LostKey
  import opened RbHeight
  import opened SMap

  function T49(): Tree {
    B(3, R(9, Leaf, 4, Leaf), 5, B(6, R(4, Leaf, 9, Leaf), 11, B(8, R(7, Leaf, 13, Leaf), 14, B(1, R(2, Leaf, 16,
      Leaf), 17, B(5, Leaf, 20, R(0, Leaf, 22, Leaf))))))
  }

  lemma Eval49()
    ensures Insert(T48(), 9, 4, 0, LAST) == T49() && !Finds(T48(), 4) && NoRedRedBelow(T48())
  {
  }

  function T50(): Tree {
    B(9, R(10, Leaf, 3, Leaf), 4, R(3, Leaf, 5, B(6, R(4, Leaf, 9, Leaf), 11, B(8, R(7, Leaf, 13, Leaf), 14, B(1, R(2,
      Leaf, 16, Leaf), 17, B(5, Leaf, 20, R(0, Leaf, 22, Leaf)))))))
  }

  lemma Eval50()
    ensures Insert(T49(), 10, 3, 0, LAST) == T50() && !Finds(T49(), 3) && NoRedRedBelow(T49())
  {
  }

  function T51(): Tree {
    B(9, B(10, R(11, Leaf, 1, Leaf), 3, Leaf), 4, B(3, Leaf, 5, B(6, R(4, Leaf, 9, Leaf), 11, B(8, R(7, Leaf, 13,
      Leaf), 14, B(1, R(2, Leaf, 16, Leaf), 17, B(5, Leaf, 20, R(0, Leaf, 22, Leaf)))))))
  }

  lemma Eval51()
    ensures Insert(T50(), 11, 1, 0, LAST) == T51() && !Finds(T50(), 1) && NoRedRedBelow(T50())
  {
  }

  function T52(): Tree {
    B(9, B(11, R(12, Leaf, 0, Leaf), 1, R(10, Leaf, 3, Leaf)), 4, B(3, Leaf, 5, B(6, R(4, Leaf, 9, Leaf), 11, B(8, R(7,
      Leaf, 13, Leaf), 14, B(1, R(2, Leaf, 16, Leaf), 17, B(5, Leaf, 20, R(0, Leaf, 22, Leaf)))))))
  }

  lemma Eval52()
    ensures Insert(T51(), 12, 0, 0, LAST) == T52() && !Finds(T51(), 0) && NoRedRedBelow(T51())
  {
  }

  function T53(): Tree {
    B(9, R(11, B(12, Leaf, 0, Leaf), 1, B(10, R(13, Leaf, 2, Leaf), 3, Leaf)), 4, B(3, Leaf, 5, B(6, R(4, Leaf, 9,
      Leaf), 11, B(8, R(7, Leaf, 13, Leaf), 14, B(1, R(2, Leaf, 16, Leaf), 17, B(5, Leaf, 20, R(0, Leaf, 22,
      Leaf)))))))
  }

  lemma Eval53()
    ensures Insert(T52(), 13, 2, 0, LAST) == T53() && !Finds(T52(), 2) && NoRedRedBelow(T52())
  {
  }

  function T54(): Tree {
    B(11, B(12, Leaf, 0, Leaf), 1, R(10, B(13, Leaf, 2, Leaf), 3, B(9, Leaf, 4, R(3, Leaf, 5, B(4, Leaf, 9, R(6, Leaf,
      11, B(7, Leaf, 13, R(8, Leaf, 14, B(2, Leaf, 16, R(1, Leaf, 17, B(0, R(5, Leaf, 20, Leaf), 22, Leaf)))))))))))
  }

  /** Where the walk of that deletion ends. */
  function Bottom(): Focus {
    Focus(Fr(Left, 0, false, 22, 0, Leaf, Fr(Right, 1, true, 17, 0, Leaf, Fr(Right, 2, false, 16, 0, Leaf, Fr(Right, 8,
      true, 14, 0, Leaf, Fr(Right, 7, false, 13, 0, Leaf, Fr(Right, 6, true, 11, 0, Leaf, Fr(Right, 4, false, 9, 0,
      Leaf, Fr(Right, 3, true, 5, 0, Leaf, Fr(Right, 9, false, 4, 0, Leaf, Fr(Right, 10, true, 3, 0, B(13, Leaf, 2,
      Leaf), Fr(Right, 11, false, 1, 0, B(12, Leaf, 0, Leaf), Top))))))))))), R(5, Leaf, 20, Leaf))
  }

  lemma Walk54()
    ensures DeleteWalk(Top, T53(), 19) == Bottom()
  {
  }

  lemma Path54()
    ensures !WalkFound(Bottom(), 19) && SetRed(Fill(Bottom().c, Bottom().t), false) == T54()
  {
  }

  lemma Side54()
    ensures !Finds(T53(), 19) && !RootOnly(T53(), 19) && T53().Node? && T53().k != 19
  {
  }

  lemma Eval54()
    ensures DeleteSized(T53(), 19, 14) == T54()
  {
    hide T53, Bottom, WalkFound, DeleteWalk, Fill;
    Walk54();
    Path54();
    Side54();
  }

  method Run54() returns (ops: seq<Op>)
    ensures Reached(ops, 54, T54(), 14)
  {
    hide *;
    ops := Run48();
    Eval49();
    ops := Adds(ops, 48, T48(), 9, 4);
    Eval50();
    ops := Adds(ops, 49, T49(), 10, 3);
    Eval51();
    ops := Adds(ops, 50, T50(), 11, 1);
    Eval52();
    ops := Adds(ops, 51, T51(), 12, 0);
    Eval53();
    ops := Adds(ops, 52, T52(), 13, 2);
    Eval54();
    Side54();
    ops := Removes(ops, 53, T53(), 14, 19);
  }

  lemma Levels()
    ensures Height(T54()) == 12 && Span(T54(), 0, 22) == 12
  {
  }

  /** Fourteen nodes on twelve levels, where the stack has eleven entries. */
  method HighRun() returns (ops: seq<Op>)
    ensures |ops| == 54 && Sound(ops) && |Ent(Run(ops))| == 14 && StackSize(14) == 11
    ensures Height(Run(ops)) == 12 && Span(Run(ops), 0, 22) == 12
  {
    hide T54, Height, Span;
    ops := Run54();
    Levels();
    assert Log2(14) == 1 + Log2(7) && Log2(7) == 1 + Log2(3) && Log2(3) == 1;
  }

}
