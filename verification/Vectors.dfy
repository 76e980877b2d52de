/** Embedding vectors, over the reals: rounding is not modelled. */
module Vectors {
  type Vec = seq<real>

  /** Inner product over the common length, as `zip` computes it. */
  function Dot(a: Vec, b: Vec): real {
    if a == [] || b == [] then 0.0 else a[0] * b[0] + Dot(a[1..], b[1..])
  }

  /** Term by term from the other end. */
  lemma {:induction false} DotOneMore(a: Vec, b: Vec, x: real, y: real)
    requires |a| == |b|
    ensures Dot(a + [x], b + [y]) == Dot(a, b) + x * y
  {
    if a == [] {
      assert (a + [x])[1..] == [] && Dot([x], [y]) == x * y + Dot([], []);
    } else {
      assert (a + [x])[1..] == a[1..] + [x] && (b + [y])[1..] == b[1..] + [y];
      DotOneMore(a[1..], b[1..], x, y);
    }
  }

  /** What one vector has beyond the other does not count. */
  lemma {:induction false} DotOfCommonLength(a: Vec, b: Vec, more: Vec)
    requires |a| == |b|
    ensures Dot(a, b + more) == Dot(a, b) == Dot(b + more, a) == Dot(b, a)
  {
    if a == [] {
      assert b == [];
    } else {
      assert (b + more)[1..] == b[1..] + more;
      DotOfCommonLength(a[1..], b[1..], more);
    }
  }
}
