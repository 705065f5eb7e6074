/** The height of a red-black tree is logarithmic in its size. */
module RbHeight {
  import opened Bits
  import opened RbModel

  function Height(t: Tree): nat {
    if t.Leaf? then 0 else 1 + if Height(t.l) > Height(t.r) then Height(t.l) else Height(t.r)
  }

  /** A path has at most twice as many nodes as black nodes (one more when it starts red), and a tree with `h` black
      nodes on every path has at least 2^h - 1 nodes. */
  lemma {:induction false} HeightBlackHeight(t: Tree)
    requires NoRedRed(t) && Balanced(t)
    ensures Height(t) <= 2 * Bh(t) + if Red(t) then 1 else 0
    ensures |Ent(t)| + 1 >= Pow2(Bh(t))
  {
    if t.Node? {
      HeightBlackHeight(t.l);
      HeightBlackHeight(t.r);
    }
  }

  lemma Exponent(n: nat, h: nat)
    requires n > 0 && n + 1 >= Pow2(h)
    ensures h <= Log2(n) + 1
  {
    Log2Bounds(n);
    if h > Log2(n) + 1 {
      Pow2Monotone(Log2(n) + 1, h);
    }
  }

  /** At most 2 * (floor(log2 n) + 1) levels, the root counted as black. */
  lemma HeightBound(t: Tree)
    requires NoRedRedBelow(t) && Balanced(t) && t.Node?
    ensures Height(t) <= 2 * (Log2(|Ent(t)|) + 1)
  {
    var n := |Ent(t)|;
    var h := Bh(t.l) + 1;
    HeightBlackHeight(t.l);
    HeightBlackHeight(t.r);
    assert n == |Ent(t.l)| + 1 + |Ent(t.r)|;
    Exponent(n, h);
  }

}
