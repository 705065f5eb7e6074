/** Integer logarithms (scommon.c) against their definition. */
module Bits {

  function Pow2(n: nat): (r: nat)
    ensures r > 0
  {
    if n == 0 then 1 else 2 * Pow2(n - 1)
  }

  /** The exponent of the largest power of two not above `i`. */
  function Log2(i: nat): nat {
    if i < 2 then 0 else 1 + Log2(i / 2)
  }

  lemma {:induction false} Log2Bounds(i: nat)
    requires i > 0
    ensures Pow2(Log2(i)) <= i < Pow2(Log2(i) + 1)
  {
    if i >= 2 {
      Log2Bounds(i / 2);
    }
  }

  lemma {:induction false} Pow2Monotone(a: nat, b: nat)
    requires a < b
    ensures 2 * Pow2(a) <= Pow2(b)
  {
    if a < b - 1 {
      Pow2Monotone(a, b - 1);
    }
  }

  lemma Log2Unique(i: nat, e: nat)
    requires Pow2(e) <= i < 2 * Pow2(e)
    ensures Log2(i) == e
  {
    Log2Bounds(i);
    if e < Log2(i) {
      Pow2Monotone(e, Log2(i));
    } else if Log2(i) < e {
      Pow2Monotone(Log2(i), e);
    }
  }

  lemma TwiceProduct(a: nat, b: nat)
    ensures (2 * a) * b == 2 * (a * b)
  {
  }

  lemma {:induction false} Pow2Add(a: nat, b: nat)
    ensures Pow2(a + b) == Pow2(a) * Pow2(b)
  {
    if a > 0 {
      Pow2Add(a - 1, b);
      TwiceProduct(Pow2(a - 1), Pow2(b));
    }
  }

  lemma MulMonotone(a: nat, b: nat, c: nat)
    requires a <= b
    ensures a * c <= b * c && c * a <= c * b
  {
  }

  lemma DivBounds(i: nat, p: nat)
    requires p > 0
    ensures (i / p) * p <= i < (i / p + 1) * p
  {
    var q, r := i / p, i % p;
    assert i == p * q + r;
  }

  lemma DivSmall(i: nat, p: nat)
    requires p > 0 && i < p * p
    ensures i / p < p
  {
    DivBounds(i, p);
    if i / p >= p {
      MulMonotone(p, i / p, p);
    }
  }

  lemma DivPositive(i: nat, p: nat)
    requires 0 < p <= i
    ensures i / p > 0
  {
    DivBounds(i, p);
  }

  lemma Log2Shift(i: nat, s: nat, p: nat)
    requires p == Pow2(s) && i >= p
    ensures Log2(i) == s + Log2(i / p)
  {
    var q := i / p;
    var e := Log2(q);
    DivPositive(i, p);
    DivBounds(i, p);
    Log2Bounds(q);
    Pow2Add(e, s);
    Pow2Add(e + 1, s);
    MulMonotone(Pow2(e), q, p);
    MulMonotone(q + 1, Pow2(e + 1), p);
    assert e + 1 + s == (e + s) + 1;
    Log2Unique(i, e + s);
  }

  lemma DivZero(i: nat, p: nat)
    requires i < p
    ensures i / p == 0
  {
  }

  lemma QuotientBelow(i: nat, bits: nat, top: nat)
    requires top == Pow2(bits) && i < Pow2(2 * bits)
    ensures i / top < top
  {
    Pow2Add(bits, bits);
    DivSmall(i, top);
  }

  lemma StepFacts(i: nat, bits: nat, top: nat)
    requires top == Pow2(bits) && i < Pow2(2 * bits)
    ensures i / top < top && (i / top != 0 <==> i >= top)
    ensures i >= top ==> Log2(i) == bits + Log2(i / top)
  {
    QuotientBelow(i, bits, top);
    if i >= top {
      DivPositive(i, top);
      Log2Shift(i, bits, top);
    } else {
      DivZero(i, top);
    }
  }

  /** One step of the ladder: when `i` has a bit at or above bit `bits`, it is shifted down and `bits` is counted.
      The mask of the step covers all bits from `bits` up that earlier steps leave in `i`. */
  method Slog2Step(o: nat, i: nat, bits: nat, top: nat) returns (o': nat, i': nat)
    requires top == Pow2(bits) && i < Pow2(2 * bits)
    ensures o' + Log2(i') == o + Log2(i) && i' < top
  {
    StepFacts(i, bits, top);
    var test := i / top != 0;
    o' := if test then o + bits else o;
    i' := if test then i / top else i;
  }

  method Slog2_32(n: nat) returns (o: nat)
    requires n < 0x1_0000_0000
    ensures o == Log2(n)
  {
    SmallPowers();
    var i := n;
    o := 0;
    o, i := Slog2Step(o, i, 16, 0x1_0000);
    o, i := Slog2Step(o, i, 8, 0x100);
    o, i := Slog2Step(o, i, 4, 0x10);
    o, i := Slog2Step(o, i, 2, 4);
    o, i := Slog2Step(o, i, 1, 2);
  }

  method Slog2_64(n: nat) returns (o: nat)
    requires n < 0x1_0000_0000_0000_0000
    ensures o == Log2(n)
  {
    SmallPowers();
    var i := n;
    o := 0;
    o, i := Slog2Step(o, i, 32, 0x1_0000_0000);
    o, i := Slog2Step(o, i, 16, 0x1_0000);
    o, i := Slog2Step(o, i, 8, 0x100);
    o, i := Slog2Step(o, i, 4, 0x10);
    o, i := Slog2Step(o, i, 2, 4);
    o, i := Slog2Step(o, i, 1, 2);
  }

  lemma SmallPowers()
    ensures Pow2(1) == 2 && Pow2(2) == 4 && Pow2(4) == 0x10 && Pow2(8) == 0x100 && Pow2(16) == 0x1_0000
    ensures Pow2(32) == 0x1_0000_0000 && Pow2(64) == 0x1_0000_0000_0000_0000
  {
    Pow2Double(2, 4);
    Pow2Double(4, 0x10);
    Pow2Double(8, 0x100);
    Pow2Double(16, 0x1_0000);
    Pow2Double(32, 0x1_0000_0000);
  }

  lemma Pow2Double(n: nat, p: nat)
    requires Pow2(n) == p
    ensures Pow2(2 * n) == p * p
  {
    Pow2Add(n, n);
  }

  method Slog2(i: nat) returns (o: nat)
    requires i < 0x1_0000_0000_0000_0000
    ensures o == Log2(i)
  {
    if i > 0xffff_ffff {
      o := Slog2_64(i);
    } else {
      o := Slog2_32(i);
    }
  }

  /** The least power of two that is at least `n` has exponent `e`; for one the code answers 1, not 0. */
  predicate IsCeil(n: nat, e: nat) {
    if n == 0 then e == 0 else n <= Pow2(e) && (e > 1 ==> Pow2(e - 1) < n) && e > 0
  }

  lemma CeilFromLogs(n: nat)
    requires n > 0
    ensures IsCeil(n, if Log2(n - 1) == Log2(n) then Log2(n) + 1 else Log2(n))
  {
    var b := Log2(n);
    Log2Bounds(n);
    if n > 1 {
      var a := Log2(n - 1);
      Log2Bounds(n - 1);
      if a < b {
        Pow2Monotone(a, b);
        if a + 1 < b {
          Pow2Monotone(a + 1, b);
        }
      } else if b < a {
        Pow2Monotone(b, a);
      }
    }
  }

  method Slog2Ceil(n: nat) returns (e: nat)
    requires n < 0x1_0000_0000_0000_0000
    ensures IsCeil(n, e)
  {
    if n == 0 {
      return 0;
    }
    var a := Slog2_64(n - 1);
    var b := Slog2_64(n);
    CeilFromLogs(n);
    e := if a == b then b + 1 else b;
  }
}
