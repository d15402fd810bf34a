/** Divisibility, greatest common divisors and Bezout's identity over the integers. */
module NumberTheory {
  import opened Products

  function Abs(x: int): nat {
    if x < 0 then -x else x
  }

  /** Truncating division: the / of C and C++, mpz_tdiv_q. */
  function TDiv(a: int, b: int): int
    requires b != 0
  {
    if (a < 0) == (b < 0) then Abs(a) / Abs(b) else -(Abs(a) / Abs(b))
  }

  /** A named product, so that divisibility has something to be instantiated with. */
  ghost function Times(k: int, d: int): int {
    k * d
  }

  ghost predicate Div(d: int, a: int) {
    exists k: int :: a == Times(k, d)
  }

  lemma DivIntro(d: int, a: int, k: int)
    requires a == k * d
    ensures Div(d, a)
  {
    assert a == Times(k, d);
  }

  lemma DivElim(d: int, a: int) returns (k: int)
    requires Div(d, a)
    ensures a == k * d
  {
    k :| a == Times(k, d);
  }

  /** A divisor of a and b divides every combination of them. */
  lemma DivCombination(d: int, a: int, b: int, x: int, y: int)
    requires Div(d, a) && Div(d, b)
    ensures Div(d, x * a + y * b)
  {
    var k := DivElim(d, a);
    var l := DivElim(d, b);
    assert x * (k * d) == (x * k) * d && y * (l * d) == (y * l) * d;
    DivIntro(d, x * a + y * b, x * k + y * l);
  }

  lemma DivMultiple(d: int, a: int, x: int)
    requires Div(d, a)
    ensures Div(d, x * a)
  {
    DivCombination(d, a, a, x, 0);
  }

  lemma DivAbs(d: int, a: int)
    ensures Div(d, a) <==> Div(d, Abs(a))
    ensures Div(d, a) <==> Div(Abs(d), a)
  {
    if Div(d, a) {
      var k := DivElim(d, a);
      DivIntro(d, -a, -k);
      DivIntro(-d, a, -k);
    }
    if Div(d, -a) {
      var k := DivElim(d, -a);
      DivIntro(d, a, -k);
    }
    if Div(-d, a) {
      var k := DivElim(-d, a);
      DivIntro(d, a, -k);
    }
  }

  lemma DivBound(d: int, a: int)
    requires Div(d, a) && a > 0
    ensures d <= a
  {
    var k := DivElim(d, a);
    if d > 0 {
      MulLtCancel(0, k, d);
      MulLe(1, k, d);
    }
  }

  /** g is the nonnegative greatest common divisor of a and b: common, and divisible by every common divisor. */
  ghost predicate IsGcd(g: int, a: int, b: int) {
    && g >= 0 && Div(g, a) && Div(g, b)
    && forall c: int :: Div(c, a) && Div(c, b) ==> Div(c, g)
  }

  /** A common divisor that is a combination of a and b is the greatest. */
  lemma BezoutIsGcd(g: int, a: int, b: int, x: int, y: int)
    requires g >= 0 && Div(g, a) && Div(g, b) && x * a + y * b == g
    ensures IsGcd(g, a, b)
  {
    forall c: int | Div(c, a) && Div(c, b)
      ensures Div(c, g)
    {
      DivCombination(c, a, b, x, y);
    }
  }

  lemma GcdUnique(g: int, h: int, a: int, b: int)
    requires IsGcd(g, a, b) && IsGcd(h, a, b)
    ensures g == h
  {
    assert Div(g, h) && Div(h, g);
    if g > 0 && h > 0 {
      DivBound(g, h);
      DivBound(h, g);
    } else if g == 0 {
      var k := DivElim(g, h);
    } else {
      var k := DivElim(h, g);
    }
  }

  /** Euclid's algorithm, the reference definition. */
  function Gcd(a: nat, b: nat): nat
    decreases b
  {
    if b == 0 then a else Gcd(b, a % b)
  }

  lemma {:induction false} Bezout(a: nat, b: nat) returns (x: int, y: int)
    ensures x * a + y * b == Gcd(a, b)
    ensures Div(Gcd(a, b), a) && Div(Gcd(a, b), b)
    decreases b
  {
    var g := Gcd(a, b);
    if b == 0 {
      x, y := 1, 0;
      DivIntro(g, a, 1);
      DivIntro(g, b, 0);
    } else {
      var q, r := a / b, a % b;
      var x', y' := Bezout(b, r);
      DivCombination(g, b, r, q, 1);
      x, y := y', x' - y' * q;
      BezoutStep(a, b, q, r, x', y');
    }
  }

  lemma BezoutStep(a: int, b: int, q: int, r: int, x: int, y: int)
    requires a == q * b + r
    ensures y * a + (x - y * q) * b == x * b + y * r
  {
    assert y * a == y * (q * b) + y * r;
    assert (x - y * q) * b == x * b - y * (q * b);
  }

  lemma GcdIsGcd(a: nat, b: nat)
    ensures IsGcd(Gcd(a, b), a, b)
  {
    var x, y := Bezout(a, b);
    BezoutIsGcd(Gcd(a, b), a, b, x, y);
  }

  // ---------- transferring a gcd between pairs ----------

  /** The pairs (a, b) and (c, e) have the same common divisors. */
  ghost predicate SameDivisors(a: int, b: int, c: int, e: int) {
    forall d: int :: Div(d, a) && Div(d, b) <==> Div(d, c) && Div(d, e)
  }

  lemma GcdTransfer(g: int, a: int, b: int, c: int, e: int)
    requires SameDivisors(a, b, c, e) && IsGcd(g, a, b)
    ensures IsGcd(g, c, e)
  {
  }

  /** Removing multiples of b from a. */
  lemma ReduceDivisors(a: int, b: int, q: int)
    ensures SameDivisors(a, b, a - q * b, b)
  {
    forall d: int
      ensures Div(d, a) && Div(d, b) <==> Div(d, a - q * b) && Div(d, b)
    {
      if Div(d, b) {
        if Div(d, a) { DivCombination(d, a, b, 1, -q); }
        if Div(d, a - q * b) { DivCombination(d, a - q * b, b, 1, q); }
      }
    }
  }

  lemma SelfGcd(a: nat)
    ensures IsGcd(a, a, a) && IsGcd(a, 0, a) && IsGcd(a, a, 0)
  {
    DivIntro(a, a, 1);
    DivIntro(a, 0, 0);
  }

  /** A common factor moves out of the gcd. */
  lemma GcdScale(g: int, a: nat, b: nat, p: nat)
    requires IsGcd(g, a, b)
    ensures IsGcd(g * p, a * p, b * p)
  {
    hide Gcd, IsGcd, Div;
    GcdIsGcd(a, b);
    GcdUnique(g, Gcd(a, b), a, b);
    var x, y := Bezout(a, b);
    MulNonNeg(g, p);
    DivScale(g, a, p);
    DivScale(g, b, p);
    ScaledCombination(x, a, y, b, p, g);
    BezoutIsGcd(g * p, a * p, b * p, x, y);
  }

  lemma ScaledCombination(x: int, a: int, y: int, b: int, p: int, g: int)
    requires x * a + y * b == g
    ensures x * (a * p) + y * (b * p) == g * p
  {
    CombineScaled(x, a, y, b, p);
  }

  lemma DivScale(d: int, a: int, p: int)
    requires Div(d, a)
    ensures Div(d * p, a * p)
  {
    var k := DivElim(d, a);
    assert k * d * p == k * (d * p);
    DivIntro(d * p, a * p, k);
  }

  // ---------- coprimality ----------

  ghost function Combination(x: int, a: int, y: int, b: int): int {
    x * a + y * b
  }

  /** a and b have a combination equal to one. */
  ghost predicate Coprime(a: int, b: int) {
    exists x: int, y: int :: Combination(x, a, y, b) == 1
  }

  lemma CoprimeIntro(a: int, b: int, x: int, y: int)
    requires x * a + y * b == 1
    ensures Coprime(a, b)
  {
    assert Combination(x, a, y, b) == 1;
  }

  lemma CoprimeElim(a: int, b: int) returns (x: int, y: int)
    requires Coprime(a, b)
    ensures x * a + y * b == 1
  {
    x, y :| Combination(x, a, y, b) == 1;
  }

  /** Coprimality is exactly a greatest common divisor of one. */
  lemma CoprimeIsGcdOne(a: int, b: int)
    ensures Coprime(a, b) <==> Gcd(Abs(a), Abs(b)) == 1
  {
    var g := Gcd(Abs(a), Abs(b));
    var x, y := Bezout(Abs(a), Abs(b));
    if g == 1 {
      SignedCombination(a, x);
      SignedCombination(b, y);
      CoprimeIntro(a, b, if a < 0 then -x else x, if b < 0 then -y else y);
    }
    if Coprime(a, b) {
      var u, w := CoprimeElim(a, b);
      DivAbs(g, a);
      DivAbs(g, b);
      DivCombination(g, a, b, u, w);
      DivBound(g, 1);
      var k := DivElim(g, 1);
    }
  }

  lemma SignedCombination(a: int, x: int)
    ensures (if a < 0 then -x else x) * a == x * Abs(a)
  {
  }

  lemma CoprimeSymmetric(a: int, b: int)
    requires Coprime(a, b)
    ensures Coprime(b, a)
  {
    var x, y := CoprimeElim(a, b);
    CoprimeIntro(b, a, y, x);
  }

  /** A divisor of a stays coprime to b. */
  lemma CoprimeDivisor(a: int, b: int, c: int)
    requires Coprime(a, b) && Div(c, a)
    ensures Coprime(c, b)
  {
    var x, y := CoprimeElim(a, b);
    var k := DivElim(c, a);
    assert x * (k * c) == (x * k) * c;
    CoprimeIntro(c, b, x * k, y);
  }

  lemma CoprimeProduct(a: int, b: int, c: int)
    requires Coprime(a, c) && Coprime(b, c)
    ensures Coprime(a * b, c)
  {
    var x, y := CoprimeElim(a, c);
    var u, w := CoprimeElim(b, c);
    var xa, ub := x * a, u * b;
    assert (xa + y * c) * (ub + w * c) == xa * ub + (xa * w + y * ub + y * w * c) * c;
    assert xa * ub == (x * u) * (a * b);
    CoprimeIntro(a * b, c, x * u, xa * w + y * ub + y * w * c);
  }

  /** Adding a multiple of b to a keeps them coprime. */
  lemma CoprimeShift(a: int, b: int, k: int)
    requires Coprime(a, b)
    ensures Coprime(a + k * b, b)
  {
    var x, y := CoprimeElim(a, b);
    assert x * (a + k * b) + (y - x * k) * b == x * a + y * b;
    CoprimeIntro(a + k * b, b, x, y - x * k);
  }

  lemma CoprimeNegate(a: int, b: int)
    requires Coprime(a, b)
    ensures Coprime(-a, -b)
  {
    var x, y := CoprimeElim(a, b);
    CoprimeIntro(-a, -b, -x, -y);
  }

  /** Dividing both numbers by their gcd leaves coprime quotients. */
  lemma QuotientsCoprime(a: int, b: int, g: nat, k: int, l: int)
    requires g > 0 && g == Gcd(Abs(a), Abs(b)) && a == k * g && b == l * g
    ensures Coprime(k, l)
  {
    var x, y := Bezout(Abs(a), Abs(b));
    SignedCombination(a, x);
    SignedCombination(b, y);
    var u, w := if a < 0 then -x else x, if b < 0 then -y else y;
    CombineScaled(u, k, w, l, g);
    UnitFactor(u * k + w * l, g);
    CoprimeIntro(k, l, u, w);
  }

  lemma CombineScaled(u: int, k: int, w: int, l: int, g: int)
    ensures u * (k * g) + w * (l * g) == (u * k + w * l) * g
  {
  }

  lemma UnitFactor(m: int, g: nat)
    requires m * g == g && g > 0
    ensures m == 1
  {
    DivModUnique(g, g, m, 0);
    DivModUnique(g, g, 1, 0);
  }

  lemma GcdPositive(a: int, b: int)
    requires a != 0 || b != 0
    ensures Gcd(Abs(a), Abs(b)) > 0
  {
    GcdIsGcd(Abs(a), Abs(b));
    if Gcd(Abs(a), Abs(b)) == 0 {
      var k := DivElim(0, Abs(a));
      var l := DivElim(0, Abs(b));
    }
  }

  /** Exact division by the gcd. */
  lemma GcdQuotients(a: int, b: int) returns (g: nat, k: int, l: int)
    requires a != 0 || b != 0
    ensures g == Gcd(Abs(a), Abs(b)) && g > 0 && a == k * g && b == l * g
    ensures a / g == k && b / g == l && Coprime(k, l)
  {
    g := Gcd(Abs(a), Abs(b));
    GcdPositive(a, b);
    GcdIsGcd(Abs(a), Abs(b));
    DivAbs(g, a);
    DivAbs(g, b);
    k := DivElim(g, a);
    l := DivElim(g, b);
    DivModUnique(a, g, k, 0);
    DivModUnique(b, g, l, 0);
    QuotientsCoprime(a, b, g, k, l);
  }
}
