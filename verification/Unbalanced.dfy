/** A run of the public operations after which the tree is no longer balanced: eleven new keys, four insertions of
    present keys, one deletion. */
module Unbalanced {
  import opened RbDelete
  import opened RbDeleteColours
  import opened RbInsert
  import opened RbModel
  import opened RunSteps
  import opened TreeMap

  function T1(): Tree {
    B(0, Leaf, 22, Leaf)
  }

  lemma Eval1()
    ensures Insert(Leaf, 0, 22, 0, LAST) == T1() && !Finds(Leaf, 22) && NoRedRedBelow(Leaf)
  {
  }

  function T2(): Tree {
    B(0, R(1, Leaf, 17, Leaf), 22, Leaf)
  }

  lemma Eval2()
    ensures Insert(T1(), 1, 17, 0, LAST) == T2() && !Finds(T1(), 17) && NoRedRedBelow(T1())
  {
  }

  function T3(): Tree {
    B(1, R(2, Leaf, 16, Leaf), 17, R(0, Leaf, 22, Leaf))
  }

  lemma Eval3()
    ensures Insert(T2(), 2, 16, 0, LAST) == T3() && !Finds(T2(), 16) && NoRedRedBelow(T2())
  {
  }

  function T4(): Tree {
    B(1, B(2, R(3, Leaf, 5, Leaf), 16, Leaf), 17, B(0, Leaf, 22, Leaf))
  }

  lemma Eval4()
    ensures Insert(T3(), 3, 5, 0, LAST) == T4() && !Finds(T3(), 5) && NoRedRedBelow(T3())
  {
  }

  function T5(): Tree {
    B(1, B(3, R(4, Leaf, 4, Leaf), 5, R(2, Leaf, 16, Leaf)), 17, B(0, Leaf, 22, Leaf))
  }

  lemma Eval5()
    ensures Insert(T4(), 4, 4, 0, LAST) == T5() && !Finds(T4(), 4) && NoRedRedBelow(T4())
  {
  }

  function T6(): Tree {
    B(1, R(3, B(4, R(5, Leaf, 3, Leaf), 4, Leaf), 5, B(2, Leaf, 16, Leaf)), 17, B(0, Leaf, 22, Leaf))
  }

  lemma Eval6()
    ensures Insert(T5(), 5, 3, 0, LAST) == T6() && !Finds(T5(), 3) && NoRedRedBelow(T5())
  {
  }

  function T7(): Tree {
    B(1, R(3, B(5, R(6, Leaf, 1, Leaf), 3, R(4, Leaf, 4, Leaf)), 5, B(2, Leaf, 16, Leaf)), 17, B(0, Leaf, 22, Leaf))
  }

  lemma Eval7()
    ensures Insert(T6(), 6, 1, 0, LAST) == T7() && !Finds(T6(), 1) && NoRedRedBelow(T6())
  {
  }

  function T8(): Tree {
    B(1, R(3, B(5, R(6, Leaf, 1, Leaf), 3, R(4, Leaf, 4, Leaf)), 5, B(2, R(7, Leaf, 13, Leaf), 16, Leaf)), 17, B(0,
      Leaf, 22, Leaf))
  }

  lemma Eval8()
    ensures Insert(T7(), 7, 13, 0, LAST) == T8() && !Finds(T7(), 13) && NoRedRedBelow(T7())
  {
  }

  function T9(): Tree {
    B(1, R(3, B(5, R(6, Leaf, 1, Leaf), 3, R(4, Leaf, 4, Leaf)), 5, B(7, R(8, Leaf, 9, Leaf), 13, R(2, Leaf, 16,
      Leaf))), 17, B(0, Leaf, 22, Leaf))
  }

  lemma Eval9()
    ensures Insert(T8(), 8, 9, 0, LAST) == T9() && !Finds(T8(), 9) && NoRedRedBelow(T8())
  {
  }

  function T10(): Tree {
    B(1, R(3, B(5, R(6, Leaf, 1, Leaf), 3, R(4, Leaf, 4, Leaf)), 5, B(7, R(8, Leaf, 9, Leaf), 13, R(2, Leaf, 16,
      Leaf))), 17, B(0, R(9, Leaf, 20, Leaf), 22, Leaf))
  }

  lemma Eval10()
    ensures Insert(T9(), 9, 20, 0, LAST) == T10() && !Finds(T9(), 20) && NoRedRedBelow(T9())
  {
  }

  function T11(): Tree {
    B(1, R(3, B(5, R(6, Leaf, 1, Leaf), 3, R(4, Leaf, 4, Leaf)), 5, B(7, R(8, Leaf, 9, Leaf), 13, R(2, Leaf, 16,
      Leaf))), 17, B(9, R(10, Leaf, 19, Leaf), 20, R(0, Leaf, 22, Leaf)))
  }

  lemma Eval11()
    ensures Insert(T10(), 10, 19, 0, LAST) == T11() && !Finds(T10(), 19) && NoRedRedBelow(T10())
  {
  }

  function T12(): Tree {
    B(3, R(5, B(6, Leaf, 1, Leaf), 3, B(4, Leaf, 4, Leaf)), 5, R(1, B(7, R(8, Leaf, 9, Leaf), 13, R(2, Leaf, 16,
      Leaf)), 17, B(9, R(10, Leaf, 19, Leaf), 20, R(0, Leaf, 22, Leaf))))
  }

  lemma Eval12()
    ensures Insert(T11(), 11, 1, 0, LAST) == T12() && Finds(T11(), 1) && NoRedRedBelow(T11())
  {
  }

  function T13(): Tree {
    R(3, B(5, B(6, Leaf, 1, Leaf), 3, B(4, Leaf, 4, Leaf)), 5, B(1, R(7, B(8, Leaf, 9, Leaf), 13, B(2, Leaf, 16,
      Leaf)), 17, B(9, R(10, Leaf, 19, Leaf), 20, R(0, Leaf, 22, Leaf))))
  }

  lemma Eval13()
    ensures Insert(T12(), 11, 9, 0, LAST) == T13() && Finds(T12(), 9) && NoRedRedBelow(T12())
  {
  }

  function T14(): Tree {
    R(3, B(5, B(6, Leaf, 1, Leaf), 3, B(4, Leaf, 4, Leaf)), 5, B(1, R(7, B(8, Leaf, 9, Leaf), 13, B(2, Leaf, 16,
      Leaf)), 17, R(9, B(10, Leaf, 19, Leaf), 20, B(0, Leaf, 22, Leaf))))
  }

  lemma Eval14()
    ensures Insert(T13(), 11, 19, 0, LAST) == T14() && Finds(T13(), 19) && NoRedRedBelow(T13())
  {
  }

  function T15(): Tree {
    R(3, B(5, B(6, Leaf, 1, Leaf), 3, B(4, Leaf, 4, Leaf)), 5, R(1, B(7, B(8, Leaf, 9, Leaf), 13, B(2, Leaf, 16,
      Leaf)), 17, B(9, B(10, Leaf, 19, Leaf), 20, B(0, Leaf, 22, Leaf))))
  }

  lemma Eval15()
    ensures Insert(T14(), 11, 9, 0, LAST) == T15() && Finds(T14(), 9) && NoRedRedBelow(T14())
  {
  }

  function T16(): Tree {
    B(3, B(5, Leaf, 3, R(4, Leaf, 4, Leaf)), 5, R(1, B(7, B(8, Leaf, 9, Leaf), 13, B(2, Leaf, 16, Leaf)), 17, B(9, B(6,
      Leaf, 19, Leaf), 20, B(0, Leaf, 22, Leaf))))
  }

  lemma Eval16()
    ensures DeleteSized(T15(), 1, 11) == T16() && Finds(T15(), 1) && !RootOnly(T15(), 1)
  {
  }

  method Run15() returns (ops: seq<Op>)
    ensures Reached(ops, 15, T15(), 11) && Safe(ops)
  {
    hide *;
    ops := NoSteps();
    Eval1();
    ops := Adds(ops, 0, Leaf, 0, 22);
    Eval2();
    ops := Adds(ops, 1, T1(), 1, 17);
    Eval3();
    ops := Adds(ops, 2, T2(), 2, 16);
    Eval4();
    ops := Adds(ops, 3, T3(), 3, 5);
    Eval5();
    ops := Adds(ops, 4, T4(), 4, 4);
    Eval6();
    ops := Adds(ops, 5, T5(), 5, 3);
    Eval7();
    ops := Adds(ops, 6, T6(), 6, 1);
    Eval8();
    ops := Adds(ops, 7, T7(), 7, 13);
    Eval9();
    ops := Adds(ops, 8, T8(), 8, 9);
    Eval10();
    ops := Adds(ops, 9, T9(), 9, 20);
    Eval11();
    ops := Adds(ops, 10, T10(), 10, 19);
    Eval12();
    ops := Adds(ops, 11, T11(), 11, 1);
    Eval13();
    ops := Adds(ops, 12, T12(), 11, 9);
    Eval14();
    ops := Adds(ops, 13, T13(), 11, 19);
    Eval15();
    ops := Adds(ops, 14, T14(), 11, 9);
  }

  method Run16() returns (ops: seq<Op>)
    ensures Reached(ops, 16, T16(), 10)
  {
    hide *;
    ops := Run15();
    Eval16();
    ops := Removes(ops, 15, T15(), 11, 1);
  }

  lemma BadShape()
    ensures Bad(T15(), 1) && !Balanced(T16())
  {
  }

  /** Updates of present keys followed by a deletion leave unequal black heights. */
  method UnbalancedRun() returns (ops: seq<Op>)
    ensures |ops| == 15 && Safe(ops) && Bad(Run(ops), 1) && !Balanced(Run(ops + [Deletion(1)]))
  {
    hide T15, T16, Bad, Balanced;
    ops := Run15();
    Eval16();
    BadShape();
    var all := Removes(ops, 15, T15(), 11, 1);
  }

}
