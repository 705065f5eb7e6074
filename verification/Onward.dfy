/** The run of module `Unbalanced` goes on with insertions and deletions that keep every entry. */
module Onward {
  import opened RbDelete
  import opened RbInsert
  import opened RbModel
  import opened RunSteps
  import opened TreeMap
  import opened Unbalanced

  function T17(): Tree {
    B(1, R(3, B(4, Leaf, 4, Leaf), 5, B(7, B(8, Leaf, 9, Leaf), 13, B(2, Leaf, 16, Leaf))), 17, B(5, B(6, Leaf, 19,
      Leaf), 20, B(0, Leaf, 22, Leaf)))
  }

  lemma Eval17()
    ensures DeleteSized(T16(), 3, 10) == T17() && Finds(T16(), 3) && !RootOnly(T16(), 3)
  {
  }

  function T18(): Tree {
    B(1, B(3, R(4, Leaf, 4, Leaf), 5, B(7, R(8, Leaf, 9, Leaf), 13, R(2, Leaf, 16, Leaf))), 17, B(5, B(6, Leaf, 19,
      Leaf), 20, B(0, Leaf, 22, Leaf)))
  }

  lemma Eval18()
    ensures DeleteSized(T17(), 8, 9) == T18() && !Finds(T17(), 8) && !RootOnly(T17(), 8)
  {
  }

  function T19(): Tree {
    B(3, B(4, Leaf, 4, Leaf), 5, B(1, B(7, R(8, Leaf, 9, Leaf), 13, R(2, Leaf, 16, Leaf)), 17, B(5, R(6, Leaf, 19,
      Leaf), 20, R(0, Leaf, 22, Leaf))))
  }

  lemma Eval19()
    ensures DeleteSized(T18(), 18, 9) == T19() && !Finds(T18(), 18) && !RootOnly(T18(), 18)
  {
  }

  function T20(): Tree {
    B(3, R(4, Leaf, 4, Leaf), 5, R(1, B(7, R(8, Leaf, 9, Leaf), 13, R(2, Leaf, 16, Leaf)), 17, B(5, R(6, Leaf, 19,
      Leaf), 20, R(0, Leaf, 22, Leaf))))
  }

  lemma Eval20()
    ensures DeleteSized(T19(), 3, 9) == T20() && !Finds(T19(), 3) && !RootOnly(T19(), 3)
  {
  }

  function T21(): Tree {
    R(3, B(4, Leaf, 4, Leaf), 5, B(1, R(7, B(8, Leaf, 9, Leaf), 13, B(2, Leaf, 16, Leaf)), 17, B(5, R(6, Leaf, 19,
      Leaf), 20, R(0, Leaf, 22, Leaf))))
  }

  lemma Eval21()
    ensures Insert(T20(), 9, 9, 0, LAST) == T21() && Finds(T20(), 9) && NoRedRedBelow(T20())
  {
  }

  function T22(): Tree {
    R(3, B(4, Leaf, 4, Leaf), 5, B(1, R(7, B(8, Leaf, 9, Leaf), 13, B(2, Leaf, 16, Leaf)), 17, R(5, B(6, Leaf, 19,
      Leaf), 20, B(0, Leaf, 22, Leaf))))
  }

  lemma Eval22()
    ensures Insert(T21(), 9, 19, 0, LAST) == T22() && Finds(T21(), 19) && NoRedRedBelow(T21())
  {
  }

  function T23(): Tree {
    R(3, B(4, Leaf, 4, Leaf), 5, R(1, B(7, B(8, Leaf, 9, Leaf), 13, B(2, Leaf, 16, Leaf)), 17, B(5, B(6, Leaf, 19,
      Leaf), 20, B(0, Leaf, 22, Leaf))))
  }

  lemma Eval23()
    ensures Insert(T22(), 9, 9, 0, LAST) == T23() && Finds(T22(), 9) && NoRedRedBelow(T22())
  {
  }

  function T24(): Tree {
    B(3, Leaf, 5, R(1, B(7, B(4, Leaf, 9, Leaf), 13, B(2, Leaf, 16, Leaf)), 17, B(5, B(6, Leaf, 19, Leaf), 20, B(0,
      Leaf, 22, Leaf))))
  }

  lemma Eval24()
    ensures DeleteSized(T23(), 4, 9) == T24() && Finds(T23(), 4) && !RootOnly(T23(), 4)
  {
  }

  function T25(): Tree {
    B(3, Leaf, 5, R(1, B(7, B(4, Leaf, 9, Leaf), 13, B(2, R(8, Leaf, 14, Leaf), 16, Leaf)), 17, B(5, B(6, Leaf, 19,
      Leaf), 20, B(0, Leaf, 22, Leaf))))
  }

  lemma Eval25()
    ensures Insert(T24(), 8, 14, 0, LAST) == T25() && !Finds(T24(), 14) && NoRedRedBelow(T24())
  {
  }

  function T26(): Tree {
    B(1, R(3, Leaf, 5, B(7, B(4, Leaf, 9, Leaf), 13, B(2, R(8, Leaf, 14, Leaf), 16, Leaf))), 17, B(5, B(6, Leaf, 19,
      Leaf), 20, B(0, Leaf, 22, Leaf)))
  }

  lemma Eval26()
    ensures DeleteSized(T25(), 4, 9) == T26() && !Finds(T25(), 4) && !RootOnly(T25(), 4)
  {
  }

  function T27(): Tree {
    B(1, R(3, Leaf, 5, R(8, B(7, R(4, Leaf, 9, Leaf), 13, Leaf), 14, B(2, Leaf, 16, Leaf))), 17, B(5, B(6, Leaf, 19,
      Leaf), 20, B(0, Leaf, 22, Leaf)))
  }

  lemma Eval27()
    ensures DeleteSized(T26(), 8, 9) == T27() && !Finds(T26(), 8) && !RootOnly(T26(), 8)
  {
  }

  function T28(): Tree {
    B(8, R(3, Leaf, 5, B(4, R(9, Leaf, 8, Leaf), 9, R(7, Leaf, 13, Leaf))), 14, R(1, B(2, Leaf, 16, Leaf), 17, B(5,
      B(6, Leaf, 19, Leaf), 20, B(0, Leaf, 22, Leaf))))
  }

  /** Where the walk of that insertion has got after 2 steps. */
  function Half28(): Focus {
    Focus(Fr(Right, 3, true, 5, 0, Leaf, Fr(Left, 1, false, 17, 0, B(5, B(6, Leaf, 19, Leaf), 20, B(0, Leaf, 22,
      Leaf)), Top)), R(8, B(7, R(4, Leaf, 9, Leaf), 13, Leaf), 14, B(2, Leaf, 16, Leaf)))
  }

  lemma Walk28()
    ensures OnPath(Half28().c, 8)
    ensures InsertWalk(Top, T27(), 9, 8, 0, LAST) == InsertWalk(Half28().c, Half28().t, 9, 8, 0, LAST)
  {
  }

  lemma Path28()
    requires OnPath(Half28().c, 8)
    ensures InsertWalk(Half28().c, Half28().t, 9, 8, 0, LAST) == T28()
  {
  }

  lemma Side28()
    ensures !Finds(T27(), 8) && InsertsSteadily(T27(), 8) && T27().Node?
  {
  }

  lemma Eval28()
    ensures Insert(T27(), 9, 8, 0, LAST) == T28()
  {
    hide T27, Half28, InsertWalk;
    Walk28();
    Path28();
    Side28();
  }

  function T29(): Tree {
    B(8, R(3, Leaf, 5, B(4, R(9, Leaf, 8, Leaf), 9, R(7, Leaf, 13, Leaf))), 14, B(1, R(2, Leaf, 16, Leaf), 17, R(5,
      B(6, Leaf, 19, Leaf), 20, B(0, Leaf, 22, Leaf))))
  }

  lemma Eval29()
    ensures DeleteSized(T28(), 15, 10) == T29() && !Finds(T28(), 15) && !RootOnly(T28(), 15)
  {
  }

  function T30(): Tree {
    B(3, R(10, Leaf, 4, Leaf), 5, R(8, B(4, R(9, Leaf, 8, Leaf), 9, R(7, Leaf, 13, Leaf)), 14, B(1, R(2, Leaf, 16,
      Leaf), 17, R(5, B(6, Leaf, 19, Leaf), 20, B(0, Leaf, 22, Leaf)))))
  }

  lemma Eval30()
    ensures Insert(T29(), 10, 4, 0, LAST) == T30() && !Finds(T29(), 4) && NoRedRedBelow(T29())
  {
  }

  function T31(): Tree {
    R(3, B(10, Leaf, 4, Leaf), 5, B(8, R(4, B(9, Leaf, 8, Leaf), 9, B(7, Leaf, 13, Leaf)), 14, B(1, R(2, Leaf, 16,
      Leaf), 17, R(5, B(6, Leaf, 19, Leaf), 20, B(0, Leaf, 22, Leaf)))))
  }

  lemma Eval31()
    ensures Insert(T30(), 11, 8, 0, LAST) == T31() && Finds(T30(), 8) && NoRedRedBelow(T30())
  {
  }

  function T32(): Tree {
    R(3, B(10, Leaf, 4, Leaf), 5, B(8, R(4, B(9, Leaf, 8, Leaf), 9, B(7, Leaf, 13, Leaf)), 14, R(1, B(2, Leaf, 16,
      Leaf), 17, B(5, B(6, Leaf, 19, Leaf), 20, B(0, Leaf, 22, Leaf)))))
  }

  lemma Eval32()
    ensures Insert(T31(), 11, 16, 0, LAST) == T32() && Finds(T31(), 16) && NoRedRedBelow(T31())
  {
  }

  method Run32() returns (ops: seq<Op>)
    ensures Reached(ops, 32, T32(), 11)
  {
    hide *;
    ops := Run16();
    Eval17();
    ops := Removes(ops, 16, T16(), 10, 3);
    Eval18();
    ops := Removes(ops, 17, T17(), 9, 8);
    Eval19();
    ops := Removes(ops, 18, T18(), 9, 18);
    Eval20();
    ops := Removes(ops, 19, T19(), 9, 3);
    Eval21();
    ops := Adds(ops, 20, T20(), 9, 9);
    Eval22();
    ops := Adds(ops, 21, T21(), 9, 19);
    Eval23();
    ops := Adds(ops, 22, T22(), 9, 9);
    Eval24();
    ops := Removes(ops, 23, T23(), 9, 4);
    Eval25();
    ops := Adds(ops, 24, T24(), 8, 14);
    Eval26();
    ops := Removes(ops, 25, T25(), 9, 4);
    Eval27();
    ops := Removes(ops, 26, T26(), 9, 8);
    Eval28();
    Side28();
    ops := Adds(ops, 27, T27(), 9, 8);
    Eval29();
    ops := Removes(ops, 28, T28(), 10, 15);
    Eval30();
    ops := Adds(ops, 29, T29(), 10, 4);
    Eval31();
    ops := Adds(ops, 30, T30(), 11, 8);
    Eval32();
    ops := Adds(ops, 31, T31(), 11, 16);
  }

}
