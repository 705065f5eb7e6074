/** Regrouping of concatenated sequences. */
module Sequences {

  lemma Assoc<T>(a: seq<T>, b: seq<T>, c: seq<T>)
    ensures (a + b) + c == a + (b + c)
  {
  }

  /** A block of three moves its border. */
  lemma MoveRight<T>(p: seq<T>, a: seq<T>, b: seq<T>, c: seq<T>, q: seq<T>)
    ensures p + (a + b + c) + q == p + a + (b + c + q)
  {
    Assoc(a, b, c);
    Assoc(p, a, b + c);
    Assoc(p + a, b + c, q);
  }

  lemma MoveLeft<T>(p: seq<T>, a: seq<T>, b: seq<T>, c: seq<T>, q: seq<T>)
    ensures p + (a + b + c) + q == (p + a + b) + c + q
  {
    Assoc(p, a + b, c);
    Assoc(p, a, b);
  }

  /** The two groupings of seven blocks around a double rotation. */
  lemma DoubleRotation<T>(p: seq<T>, a: seq<T>, b: seq<T>, c: seq<T>, d: seq<T>, e: seq<T>, f: seq<T>, g: seq<T>,
      q: seq<T>)
    ensures p + ((a + b + c) + d + (e + f + g)) + q == (p + a + b) + (c + d + e) + (f + g + q)
  {
    var x, y := e + f + g, (p + a + b) + (c + d + e);
    Assoc(p, (a + b + c) + d, x);
    Assoc(p, a + b + c, d);
    Assoc(p, a + b, c);
    Assoc(p, a, b);
    // now p + (...) == ((((p + a + b) + c) + d) + x) + q
    Assoc(p + a + b, c, d);
    Assoc(p + a + b, c + d, e);
    Assoc(((p + a + b) + c) + d, e + f, g);
    Assoc(((p + a + b) + c) + d, e, f);
    Assoc(y, f, g);
    Assoc(y, f + g, q);
  }

  /** A rotation below a node: the grouping of five blocks moves from the left to the right and back. */
  lemma Rotation<T>(p: seq<T>, a: seq<T>, b: seq<T>, c: seq<T>, d: seq<T>, e: seq<T>, q: seq<T>)
    ensures p + (a + b + (c + d + e)) + q == p + (a + b + c) + (d + e + q)
    ensures p + ((a + b + c) + d + e) + q == (p + a + b) + (c + d + e) + q
  {
    Assoc(c, d, e);
    Assoc(a + b, c, d + e);
    Assoc(p, a + b + c, d + e);
    Assoc(p + (a + b + c), d + e, q);
    Assoc(a + b, c, d);
    Assoc(a + b, c + d, e);
    Assoc(p, a + b, c + d + e);
    Assoc(p, a, b);
  }

  lemma Carry<T>(p: seq<T>, a: seq<T>, b: seq<T>, c: seq<T>, d: seq<T>, e: seq<T>, q: seq<T>)
    ensures p + ((a + b + c) + d + e) + q == p + a + (b + (c + d + e) + q)
    ensures p + (a + b + (c + d + e)) + q == (p + (a + b + c) + d) + e + q
  {
    Assoc(a + b, c, d);
    Assoc(a + b, c + d, e);
    Assoc(a, b, c + d + e);
    Assoc(p, a, b + (c + d + e));
    Assoc(p + a, b + (c + d + e), q);
    Assoc(c, d, e);
    Assoc(a + b, c, d + e);
    Assoc(p, a + b + c, d + e);
    Assoc(p + (a + b + c), d, e);
  }

}
