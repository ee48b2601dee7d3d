/** Two facts about multiplication and division by a positive number that
    the solver does not find unaided; both the sampler's spacing and the
    grid's row count rest on them. */
module Arith {

  lemma {:induction false} MulMonotone(a: int, b: int, s: nat)
    requires a <= b
    ensures a * s <= b * s
    decreases b - a
  {
  }

  /** Multiplying by the same natural number keeps a strict order only
      if the factors were ordered that way. */
  lemma MulLess(x: int, y: int, s: nat)
    requires x * s < y * s
    ensures x < y
  {
  }

  /** `a / w` is the one `q` with `q * w <= a < q * w + w`. */
  lemma DivUnique(a: int, w: nat, q: int)
    requires 1 <= w
    requires q * w <= a < q * w + w
    ensures a / w == q
  {
    var d, m := a / w, a % w;
    assert a == d * w + m && 0 <= m < w;
    assert (d + 1) * w == d * w + w;
    assert (q + 1) * w == q * w + w;
    MulLess(q, d + 1, w);
    MulLess(d, q + 1, w);
  }
}
