/** The run goes on to a tree in which a deletion would lose other keys. */
module LostKey {
  import opened RbDelete
  import opened RbInsert
  import opened RbModel
  import opened RunSteps
  import opened TreeMap
  import opened Onward

  function T33(): Tree {
    R(3, B(10, Leaf, 4, Leaf), 5, R(8, B(4, B(9, Leaf, 8, Leaf), 9, B(7, Leaf, 13, Leaf)), 14, B(1, B(2, Leaf, 16,
      Leaf), 17, B(5, B(6, Leaf, 19, Leaf), 20, B(0, Leaf, 22, Leaf)))))
  }

  lemma Eval33()
    ensures Insert(T32(), 11, 8, 0, LAST) == T33() && Finds(T32(), 8) && NoRedRedBelow(T32())
  {
  }

  function T34(): Tree {
    B(3, Leaf, 5, R(8, B(4, B(9, Leaf, 8, Leaf), 9, B(7, Leaf, 13, Leaf)), 14, B(1, B(2, Leaf, 16, Leaf), 17, B(5, B(6,
      Leaf, 19, Leaf), 20, B(0, Leaf, 22, Leaf)))))
  }

  lemma Eval34()
    ensures DeleteSized(T33(), 4, 11) == T34() && Finds(T33(), 4) && !RootOnly(T33(), 4)
  {
  }

  function T35(): Tree {
    B(3, Leaf, 5, R(8, B(4, B(9, Leaf, 8, Leaf), 9, B(7, R(10, Leaf, 11, Leaf), 13, Leaf)), 14, B(1, B(2, Leaf, 16,
      Leaf), 17, B(5, B(6, Leaf, 19, Leaf), 20, B(0, Leaf, 22, Leaf)))))
  }

  lemma Eval35()
    ensures Insert(T34(), 10, 11, 0, LAST) == T35() && !Finds(T34(), 11) && NoRedRedBelow(T34())
  {
  }

  function T36(): Tree {
    B(8, R(3, Leaf, 5, B(4, B(9, Leaf, 8, Leaf), 9, B(7, R(10, Leaf, 11, Leaf), 13, Leaf))), 14, B(1, B(2, Leaf, 16,
      Leaf), 17, B(5, B(6, Leaf, 19, Leaf), 20, B(0, Leaf, 22, Leaf))))
  }

  lemma Eval36()
    ensures DeleteSized(T35(), 4, 11) == T36() && !Finds(T35(), 4) && !RootOnly(T35(), 4)
  {
  }

  function T37(): Tree {
    B(8, R(3, Leaf, 5, R(10, B(4, R(9, Leaf, 8, Leaf), 9, Leaf), 11, B(7, Leaf, 13, Leaf))), 14, B(1, B(2, Leaf, 16,
      Leaf), 17, B(5, B(6, Leaf, 19, Leaf), 20, B(0, Leaf, 22, Leaf))))
  }

  lemma Eval37()
    ensures DeleteSized(T36(), 7, 11) == T37() && !Finds(T36(), 7) && !RootOnly(T36(), 7)
  {
  }

  function T38(): Tree {
    B(10, R(3, Leaf, 5, B(9, R(11, Leaf, 7, Leaf), 8, R(4, Leaf, 9, Leaf))), 11, R(8, B(7, Leaf, 13, Leaf), 14, B(1,
      B(2, Leaf, 16, Leaf), 17, B(5, B(6, Leaf, 19, Leaf), 20, B(0, Leaf, 22, Leaf)))))
  }

  /** Where the walk of that insertion has got after 2 steps. */
  function Half38(): Focus {
    Focus(Fr(Right, 3, true, 5, 0, Leaf, Fr(Left, 8, false, 14, 0, B(1, B(2, Leaf, 16, Leaf), 17, B(5, B(6, Leaf, 19,
      Leaf), 20, B(0, Leaf, 22, Leaf))), Top)), R(10, B(4, R(9, Leaf, 8, Leaf), 9, Leaf), 11, B(7, Leaf, 13, Leaf)))
  }

  lemma Walk38()
    ensures OnPath(Half38().c, 7)
    ensures InsertWalk(Top, T37(), 11, 7, 0, LAST) == InsertWalk(Half38().c, Half38().t, 11, 7, 0, LAST)
  {
  }

  lemma Path38()
    requires OnPath(Half38().c, 7)
    ensures InsertWalk(Half38().c, Half38().t, 11, 7, 0, LAST) == T38()
  {
  }

  lemma Side38()
    ensures !Finds(T37(), 7) && InsertsSteadily(T37(), 7) && T37().Node?
  {
  }

  lemma Eval38()
    ensures Insert(T37(), 11, 7, 0, LAST) == T38()
  {
    hide T37, Half38, InsertWalk;
    Walk38();
    Path38();
    Side38();
  }

  function T39(): Tree {
    B(10, R(3, Leaf, 5, B(9, R(11, Leaf, 7, Leaf), 8, R(4, Leaf, 9, Leaf))), 11, B(8, R(7, Leaf, 13, Leaf), 14, R(1,
      B(2, Leaf, 16, Leaf), 17, B(5, B(6, Leaf, 19, Leaf), 20, B(0, Leaf, 22, Leaf)))))
  }

  lemma Eval39()
    ensures DeleteSized(T38(), 12, 12) == T39() && !Finds(T38(), 12) && !RootOnly(T38(), 12)
  {
  }

  function T40(): Tree {
    B(3, R(12, Leaf, 4, Leaf), 5, R(10, B(9, R(11, Leaf, 7, Leaf), 8, R(4, Leaf, 9, Leaf)), 11, B(8, R(7, Leaf, 13,
      Leaf), 14, R(1, B(2, Leaf, 16, Leaf), 17, B(5, B(6, Leaf, 19, Leaf), 20, B(0, Leaf, 22, Leaf))))))
  }

  lemma Eval40()
    ensures Insert(T39(), 12, 4, 0, LAST) == T40() && !Finds(T39(), 4) && NoRedRedBelow(T39())
  {
  }

  function T41(): Tree {
    R(3, B(12, Leaf, 4, Leaf), 5, B(10, R(9, B(11, Leaf, 7, Leaf), 8, B(4, Leaf, 9, Leaf)), 11, B(8, R(7, Leaf, 13,
      Leaf), 14, R(1, B(2, Leaf, 16, Leaf), 17, B(5, B(6, Leaf, 19, Leaf), 20, B(0, Leaf, 22, Leaf))))))
  }

  lemma Eval41()
    ensures Insert(T40(), 13, 7, 0, LAST) == T41() && Finds(T40(), 7) && NoRedRedBelow(T40())
  {
  }

  function T42(): Tree {
    R(3, B(12, Leaf, 4, Leaf), 5, B(10, R(9, B(11, Leaf, 7, Leaf), 8, B(4, Leaf, 9, Leaf)), 11, R(8, B(7, Leaf, 13,
      Leaf), 14, B(1, B(2, Leaf, 16, Leaf), 17, B(5, B(6, Leaf, 19, Leaf), 20, B(0, Leaf, 22, Leaf))))))
  }

  lemma Eval42()
    ensures Insert(T41(), 13, 13, 0, LAST) == T42() && Finds(T41(), 13) && NoRedRedBelow(T41())
  {
  }

  function T43(): Tree {
    R(3, B(12, Leaf, 4, Leaf), 5, R(10, B(9, B(11, Leaf, 7, Leaf), 8, B(4, Leaf, 9, Leaf)), 11, B(8, B(7, Leaf, 13,
      Leaf), 14, B(1, B(2, Leaf, 16, Leaf), 17, B(5, B(6, Leaf, 19, Leaf), 20, B(0, Leaf, 22, Leaf))))))
  }

  lemma Eval43()
    ensures Insert(T42(), 13, 7, 0, LAST) == T43() && Finds(T42(), 7) && NoRedRedBelow(T42())
  {
  }

  function T44(): Tree {
    B(3, Leaf, 5, R(10, B(9, B(11, Leaf, 7, Leaf), 8, B(4, Leaf, 9, Leaf)), 11, B(8, B(7, Leaf, 13, Leaf), 14, B(1,
      B(2, Leaf, 16, Leaf), 17, B(5, B(6, Leaf, 19, Leaf), 20, B(0, Leaf, 22, Leaf))))))
  }

  lemma Eval44()
    ensures DeleteSized(T43(), 4, 13) == T44() && Finds(T43(), 4) && !RootOnly(T43(), 4)
  {
  }

  function T45(): Tree {
    B(10, R(3, Leaf, 5, B(9, B(11, Leaf, 7, Leaf), 8, B(4, Leaf, 9, Leaf))), 11, B(8, B(7, Leaf, 13, Leaf), 14, B(1,
      B(2, Leaf, 16, Leaf), 17, B(5, B(6, Leaf, 19, Leaf), 20, B(0, Leaf, 22, Leaf)))))
  }

  lemma Eval45()
    ensures DeleteSized(T44(), 4, 12) == T45() && !Finds(T44(), 4) && !RootOnly(T44(), 4)
  {
  }

  function T46(): Tree {
    B(10, R(3, Leaf, 5, B(9, Leaf, 8, R(4, Leaf, 9, Leaf))), 11, B(8, B(7, Leaf, 13, Leaf), 14, B(1, B(2, Leaf, 16,
      Leaf), 17, B(5, B(6, Leaf, 19, Leaf), 20, B(0, Leaf, 22, Leaf)))))
  }

  lemma Eval46()
    ensures DeleteSized(T45(), 7, 12) == T46() && Finds(T45(), 7) && !RootOnly(T45(), 7)
  {
  }

  function T47(): Tree {
    B(9, R(3, Leaf, 5, B(4, Leaf, 9, Leaf)), 11, B(8, B(7, Leaf, 13, Leaf), 14, B(1, B(2, Leaf, 16, Leaf), 17, B(5,
      B(6, Leaf, 19, Leaf), 20, B(0, Leaf, 22, Leaf)))))
  }

  lemma Eval47()
    ensures DeleteSized(T46(), 8, 11) == T47() && Finds(T46(), 8) && !RootOnly(T46(), 8)
  {
  }

  function T48(): Tree {
    B(3, Leaf, 5, B(6, R(4, Leaf, 9, Leaf), 11, B(8, R(7, Leaf, 13, Leaf), 14, B(1, R(2, Leaf, 16, Leaf), 17, B(5,
      Leaf, 20, R(0, Leaf, 22, Leaf))))))
  }

  lemma Eval48()
    ensures DeleteSized(T47(), 19, 10) == T48()
  {
  }

  lemma Side48()
    ensures Finds(T47(), 19) && !RootOnly(T47(), 19)
  {
  }

  method Run43() returns (ops: seq<Op>)
    ensures Reached(ops, 43, T43(), 13)
  {
    hide *;
    ops := Run32();
    Eval33();
    ops := Adds(ops, 32, T32(), 11, 8);
    Eval34();
    ops := Removes(ops, 33, T33(), 11, 4);
    Eval35();
    ops := Adds(ops, 34, T34(), 10, 11);
    Eval36();
    ops := Removes(ops, 35, T35(), 11, 4);
    Eval37();
    ops := Removes(ops, 36, T36(), 11, 7);
    Eval38();
    Side38();
    ops := Adds(ops, 37, T37(), 11, 7);
    Eval39();
    ops := Removes(ops, 38, T38(), 12, 12);
    Eval40();
    ops := Adds(ops, 39, T39(), 12, 4);
    Eval41();
    ops := Adds(ops, 40, T40(), 13, 7);
    Eval42();
    ops := Adds(ops, 41, T41(), 13, 13);
    Eval43();
    ops := Adds(ops, 42, T42(), 13, 7);
  }

  method Run48() returns (ops: seq<Op>)
    ensures Reached(ops, 48, T48(), 9)
  {
    hide *;
    ops := Run43();
    Eval44();
    ops := Removes(ops, 43, T43(), 13, 4);
    Eval45();
    ops := Removes(ops, 44, T44(), 12, 4);
    Eval46();
    ops := Removes(ops, 45, T45(), 12, 7);
    Eval47();
    ops := Removes(ops, 46, T46(), 11, 8);
    Eval48();
    Side48();
    ops := Removes(ops, 47, T47(), 10, 19);
  }

  lemma RootAlone()
    ensures RootOnly(T48(), 5)
  {
  }

  /** Past the bad shape a sound run can reach a tree of nine nodes whose root alone holds its key. */
  method LosingRun() returns (ops: seq<Op>)
    ensures |ops| == 48 && Sound(ops) && LosesKeys(Run(ops), 5)
  {
    hide T48;
    ops := Run48();
    RootAlone();
  }

}
