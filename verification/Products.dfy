/** Monotonicity and uniqueness facts about integer products, each small enough to be checked at once. */
module Products {

  lemma MulLe(a: int, b: int, c: int)
    requires a <= b && 0 <= c
    ensures a * c <= b * c
  {
  }

  lemma MulLt(a: int, b: int, c: int)
    requires a < b && 0 < c
    ensures a * c < b * c
  {
  }

  lemma MulLtCancel(a: int, b: int, c: int)
    requires a * c < b * c && 0 <= c
    ensures a < b
  {
    if b <= a { MulLe(b, a, c); }
  }

  lemma MulNonNeg(a: int, b: int)
    requires 0 <= a && 0 <= b
    ensures 0 <= a * b
  {
  }

  /** a <= c and b <= d with nonnegative a and d give a*b <= c*d. */
  lemma MulLe2(a: int, b: int, c: int, d: int)
    requires 0 <= a <= c && b <= d && 0 <= d
    ensures a * b <= c * d
  {
    MulLe(b, d, a);
    MulLe(a, c, d);
  }

  lemma DivModExact(u: int, d: int)
    requires d > 0
    ensures u == u / d * d + u % d && 0 <= u % d < d
  {
  }

  /** Quotient and remainder are determined by their defining property. */
  lemma DivModUnique(u: int, d: int, q: int, r: int)
    requires d > 0 && u == q * d + r && 0 <= r < d
    ensures q == u / d && r == u % d
  {
    var q', r' := u / d, u % d;
    assert u == q' * d + r';
    if q < q' { MulLe(q + 1, q', d); }
    if q' < q { MulLe(q' + 1, q, d); }
  }

  /** Division rounding down, with its defining inequalities. */
  function FloorDiv(y: nat, p: nat): (q: nat)
    requires p >= 1
    ensures q * p <= y < q * p + p
  {
    y / p
  }

  lemma FloorDivAtLeast(x: int, p: nat, y: nat)
    requires p >= 1 && x * p <= y
    ensures x <= FloorDiv(y, p)
  {
    hide FloorDiv;
    MulLtCancel(x, FloorDiv(y, p) + 1, p);
  }
}
