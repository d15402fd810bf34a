/**
 Normalized fractions (libs/eosio.evm/external/boost/rational.hpp) over mathematical integers.
 integer::gcd is represented by its specification, the gcd of the absolute values.
 */
module RationalNumber {
  import opened Products
  import opened NumberTheory

  /** The class invariant: positive denominator, lowest terms. */
  predicate Normal(num: int, den: int) {
    den > 0 && Gcd(Abs(num), Abs(den)) == 1
  }

  /** num/den == n/d, cross-multiplied. */
  ghost predicate SameValue(num: int, den: int, n: int, d: int) {
    num * d == n * den
  }

  // ---------- addition and subtraction ----------

  /** The normalized sum a/b + sign*c/d from the two gcds of the source; no final gcd with the denominator. */
  lemma SumNormal(a: int, b: int, c: int, d: int, b1: int, d1: int, g: int, n: int, n1: int, g1: int, h: int, sign: int)
    requires Normal(a, b) && Normal(c, d) && (sign == 1 || sign == -1)
    requires g > 0 && b == b1 * g && d == d1 * g && Coprime(b1, d1)
    requires n == a * d1 + sign * (c * b1)
    requires h > 0 && n == n1 * h && g == g1 * h && Coprime(n1, g1)
    ensures Coprime(n1, b1 * (d1 * g1))
  {
    hide Coprime, Div, Normal;
    NormalParts(a, b);
    NormalParts(c, d);
    DivIntro(b1, b, g);
    DivIntro(d1, d, g);
    DivIntro(n1, n, h);
    // n is coprime to b1
    CoprimeSymmetric(a, b);
    CoprimeDivisor(b, a, b1);
    CoprimeSymmetric(b1, a);
    CoprimeSymmetric(b1, d1);
    CoprimeProduct(a, d1, b1);
    CoprimeShift(a * d1, b1, sign * c);
    assert a * d1 + sign * c * b1 == n by { assert sign * c * b1 == sign * (c * b1); }
    CoprimeDivisor(n, b1, n1);
    // n is coprime to d1
    CoprimeSymmetric(c, d);
    CoprimeDivisor(d, c, d1);
    CoprimeSymmetric(d1, c);
    CoprimeProduct(c, b1, d1);
    CoprimeSigned(c * b1, d1, sign);
    CoprimeShift(sign * (c * b1), d1, a);
    assert sign * (c * b1) + a * d1 == n;
    CoprimeDivisor(n, d1, n1);
    // and n1 to the remaining factor of g
    CoprimeSymmetric(n1, b1);
    CoprimeSymmetric(n1, d1);
    CoprimeSymmetric(n1, g1);
    CoprimeProduct(d1, g1, n1);
    CoprimeProduct(b1, d1 * g1, n1);
    CoprimeSymmetric(b1 * (d1 * g1), n1);
  }

  lemma CoprimeSigned(a: int, b: int, sign: int)
    requires Coprime(a, b) && (sign == 1 || sign == -1)
    ensures Coprime(sign * a, b)
  {
    if sign == -1 {
      CoprimeNegate(a, b);
      var x, y := CoprimeElim(-a, -b);
      CoprimeIntro(-a, b, x, -y);
    }
  }

  lemma SumValue(a: int, b: int, c: int, d: int, b1: int, d1: int, g: int, n: int, n1: int, g1: int, h: int, sign: int)
    requires b == b1 * g && d == d1 * g && n == a * d1 + sign * (c * b1)
    requires n == n1 * h && g == g1 * h
    ensures SameValue(n1, b1 * (d1 * g1), a * d + sign * (c * b), b * d)
  {
    ScaledSum(a, b1, c, d1, g, sign);
    SquareScale(b1, d1, g);
    assert b1 * (d1 * g1) == (b1 * d1) * g1;
    CrossScaled(n1, h, g, g1, b1 * d1, n, a * d + sign * (c * b), b * d, b1 * (d1 * g1));
  }

  lemma SquareScale(b1: int, d1: int, g: int)
    ensures (b1 * g) * (d1 * g) == (b1 * d1) * (g * g)
  {
  }

  lemma CrossScaled(n1: int, h: int, g: int, g1: int, p: int, n: int, s: int, bd: int, den: int)
    requires n == n1 * h && g == g1 * h && s == n * g && bd == p * (g * g) && den == p * g1
    ensures n1 * bd == s * den
  {
    var e := g1 * h;
    assert n1 * h * g * (p * g1) == n1 * (p * (g * e));
  }

  lemma ScaledSum(a: int, b1: int, c: int, d1: int, g: int, sign: int)
    ensures a * (d1 * g) + sign * (c * (b1 * g)) == (a * d1 + sign * (c * b1)) * g
  {
    assert a * (d1 * g) == (a * d1) * g;
    assert c * (b1 * g) == (c * b1) * g;
    assert sign * ((c * b1) * g) == (sign * (c * b1)) * g;
  }

  // ---------- products ----------

  /** Cross-cancelling before multiplying leaves numerator and denominator coprime. */
  lemma ProductNormal(a: int, b: int, c: int, d: int, a1: int, d1: int, g1: int, c1: int, b1: int, g2: int)
    requires Coprime(a, b) && Coprime(c, d)
    requires a == a1 * g1 && d == d1 * g1 && Coprime(a1, d1)
    requires c == c1 * g2 && b == b1 * g2 && Coprime(c1, b1)
    ensures Coprime(a1 * c1, b1 * d1)
  {
    hide Coprime, Div;
    DivIntro(a1, a, g1);
    DivIntro(d1, d, g1);
    DivIntro(c1, c, g2);
    DivIntro(b1, b, g2);
    CoprimeParts(a, b, a1, b1);
    CoprimeParts(c, d, c1, d1);
    CoprimeProduct(a1, c1, b1);
    CoprimeProduct(a1, c1, d1);
    CoprimeSymmetric(a1 * c1, b1);
    CoprimeSymmetric(a1 * c1, d1);
    CoprimeProduct(b1, d1, a1 * c1);
    CoprimeSymmetric(b1 * d1, a1 * c1);
  }

  lemma CoprimeParts(a: int, b: int, a1: int, b1: int)
    requires Coprime(a, b) && Div(a1, a) && Div(b1, b)
    ensures Coprime(a1, b1)
  {
    CoprimeDivisor(a, b, a1);
    CoprimeSymmetric(a1, b);
    CoprimeDivisor(b, a1, b1);
    CoprimeSymmetric(b1, a1);
  }

  lemma ProductValue(a: int, b: int, c: int, d: int, a1: int, d1: int, g1: int, c1: int, b1: int, g2: int)
    requires a == a1 * g1 && d == d1 * g1 && c == c1 * g2 && b == b1 * g2
    ensures SameValue(a1 * c1, b1 * d1, a * c, b * d)
  {
    SquareMix(b1, g2, d1, g1);
    SquareMix(a1, g1, c1, g2);
    CrossProduct(a1 * c1, b1 * d1, g1 * g2);
  }

  lemma SquareMix(x: int, g: int, y: int, h: int)
    ensures (x * g) * (y * h) == (x * y) * (h * g)
  {
  }

  lemma CrossProduct(x: int, y: int, g: int)
    ensures x * (y * g) == (x * g) * y
  {
  }

  // ---------- continued-fraction comparison ----------

  /** n1/d1 < n2/d2, cross-multiplied. */
  ghost predicate CrossLess(n1: int, d1: int, n2: int, d2: int) {
    n1 * d2 < n2 * d1
  }

  /** Different integer parts decide the comparison. */
  lemma QuotientsDecide(n1: int, d1: int, q1: int, r1: int, n2: int, d2: int, q2: int, r2: int)
    requires d1 > 0 && d2 > 0 && n1 == q1 * d1 + r1 && n2 == q2 * d2 + r2
    requires 0 <= r1 < d1 && 0 <= r2 < d2 && q1 < q2
    ensures CrossLess(n1, d1, n2, d2) && !CrossLess(n2, d2, n1, d1)
  {
    MulLe(q1 + 1, q2, d1);
    assert (q1 + 1) * d1 == q1 * d1 + d1;
    MulLt(n1, q2 * d1, d2);
    MulLe(q2 * d2, n2, d1);
    assert q2 * d1 * d2 == q2 * d2 * d1;
  }

  /** Equal integer parts leave the comparison of the fractional parts. */
  lemma RemaindersDecide(n1: int, d1: int, q: int, r1: int, n2: int, d2: int, r2: int)
    requires n1 == q * d1 + r1 && n2 == q * d2 + r2
    ensures CrossLess(n1, d1, n2, d2) <==> r1 * d2 < r2 * d1
    ensures CrossLess(n2, d2, n1, d1) <==> r2 * d1 < r1 * d2
  {
    assert (q * d1 + r1) * d2 == q * d1 * d2 + r1 * d2;
    assert (q * d2 + r2) * d1 == q * d1 * d2 + r2 * d1;
  }

  /** Equal integer parts: the order of the reciprocals of the fractional parts is reversed. */
  lemma Reciprocate(n1: int, d1: int, q: int, r1: int, n2: int, d2: int, r2: int)
    requires n1 == q * d1 + r1 && n2 == q * d2 + r2
    ensures CrossLess(n1, d1, n2, d2) <==> CrossLess(d2, r2, d1, r1)
    ensures CrossLess(n2, d2, n1, d1) <==> CrossLess(d1, r1, d2, r2)
  {
    RemaindersDecide(n1, d1, q, r1, n2, d2, r2);
  }

  /** An expansion that has ended is smaller than one that goes on, and equal to one that has ended. */
  lemma ExpansionEnds(n1: int, d1: int, q: int, r1: int, n2: int, d2: int, r2: int)
    requires d1 > 0 && d2 > 0 && 0 <= r1 && 0 <= r2 && (r1 == 0 || r2 == 0)
    requires n1 == q * d1 + r1 && n2 == q * d2 + r2
    ensures CrossLess(n1, d1, n2, d2) <==> r1 == 0 && r2 != 0
    ensures CrossLess(n2, d2, n1, d1) <==> r1 != 0 && r2 == 0
  {
    RemaindersDecide(n1, d1, q, r1, n2, d2, r2);
    if r1 > 0 { MulLe2(1, 1, r1, d2); }
    if r2 > 0 { MulLe2(1, 1, r2, d1); }
  }

  /** Truncated quotient and remainder of a possibly negative numerator. */
  lemma TruncatedRemainder(n: int, d: int)
    requires d > 0
    ensures -d < n - TDiv(n, d) * d < d
    ensures n >= 0 ==> n - TDiv(n, d) * d >= 0
  {
    var q := Abs(n) / d;
    assert Abs(n) == q * d + Abs(n) % d;
    if n < 0 { assert (-q) * d == -(q * d); }
  }

  class Rational {
    var num: int
    var den: int

    predicate Valid()
      reads this
    {
      Normal(num, den)
    }

    /** rational(n, d) before normalization. */
    constructor (n: int, d: int)
      ensures num == n && den == d
    {
      num, den := n, d;
    }

    /** normalize: brings any fraction with a non-zero denominator into normal form; false stands for bad_rational. */
    method Normalize() returns (ok: bool)
      modifies this
      ensures ok <==> old(den) != 0
      ensures ok ==> Valid() && SameValue(num, den, old(num), old(den))
      ensures !ok ==> num == old(num) && den == old(den)
    {
      hide Coprime, Gcd, Normal;
      if den == 0 {
        return false;
      }
      if num == 0 {
        den := 1;
        CoprimeIntro(0, 1, 0, 1);
        NormalIntro(0, 1);
        return true;
      }
      hide SameValue;
      ghost var g', k, l := GcdQuotients(num, den);
      var g := Gcd(Abs(num), Abs(den));
      ReducedValue(num, den, k, l, g);
      num := num / g;
      den := den / g;
      if den < 0 {
        CoprimeNegate(num, den);
        NegatedValue(num, den, k * g, l * g);
        num := -num;
        den := -den;
      }
      NormalIntro(num, den);
      ok := true;
    }

    /** operator+= and operator-=, which differ only in the sign of r's contribution. */
    method AddScaled(r: Rational, sign: int)
      requires Valid() && r.Valid() && (sign == 1 || sign == -1)
      modifies this
      ensures Valid()
      ensures SameValue(num, den, old(num) * old(r.den) + sign * (old(r.num) * old(den)), old(den) * old(r.den))
    {
      hide Coprime, Normal, SameValue;
      var rNum, rDen := r.num, r.den;
      ghost var a, b := num, den;
      NormalParts(a, b);
      NormalParts(rNum, rDen);
      ghost var g0, b1, d1 := GcdQuotients(den, rDen);
      var g := Gcd(Abs(den), Abs(rDen));
      den := den / g;
      num := num * (rDen / g) + sign * (rNum * den);
      ghost var n := num;
      ghost var h, n1, g1 := GcdQuotients(num, g);
      g := Gcd(Abs(num), Abs(g));
      num := num / g;
      DenominatorStep(rDen, d1, g0, g1, h);
      den := den * (rDen / g);
      SumNormal(a, b, rNum, rDen, b1, d1, g0, n, n1, g1, h, sign);
      SumValue(a, b, rNum, rDen, b1, d1, g0, n, n1, g1, h, sign);
      DenominatorPositive(b, rDen, b1, d1, g0, g1, h);
      NormalIntro(num, den);
    }

    method AddAssign(r: Rational)
      requires Valid() && r.Valid()
      modifies this
      ensures Valid()
      ensures SameValue(num, den, old(num) * old(r.den) + old(r.num) * old(den), old(den) * old(r.den))
    {
      AddScaled(r, 1);
    }

    method SubtractAssign(r: Rational)
      requires Valid() && r.Valid()
      modifies this
      ensures Valid()
      ensures SameValue(num, den, old(num) * old(r.den) - old(r.num) * old(den), old(den) * old(r.den))
    {
      AddScaled(r, -1);
    }

    method MultiplyAssign(r: Rational)
      requires Valid() && r.Valid()
      modifies this
      ensures Valid()
      ensures SameValue(num, den, old(num) * old(r.num), old(den) * old(r.den))
    {
      hide Coprime, Normal, SameValue;
      var rNum, rDen := r.num, r.den;
      ghost var a, b := num, den;
      NormalParts(a, b);
      NormalParts(rNum, rDen);
      ghost var h1, a1, d1 := GcdQuotients(num, rDen);
      ghost var h2, c1, b1 := GcdQuotients(rNum, den);
      var gcd1 := Gcd(Abs(num), Abs(rDen));
      var gcd2 := Gcd(Abs(rNum), Abs(den));
      num := (num / gcd1) * (rNum / gcd2);
      den := (den / gcd2) * (rDen / gcd1);
      ProductNormal(a, b, rNum, rDen, a1, d1, h1, c1, b1, h2);
      ProductValue(a, b, rNum, rDen, a1, d1, h1, c1, b1, h2);
      PositiveQuotient(b, b1, h2);
      PositiveQuotient(rDen, d1, h1);
      MulLe2(1, 1, b1, d1);
      NormalIntro(num, den);
    }

    /** operator/=: false stands for the bad_rational of a zero divisor. */
    method DivideAssign(r: Rational) returns (ok: bool)
      requires Valid() && r.Valid()
      modifies this
      ensures ok <==> old(r.num) != 0
      ensures Valid()
      ensures ok ==> SameValue(num, den, old(num) * old(r.den), old(den) * old(r.num))
      ensures !ok ==> num == old(num) && den == old(den)
    {
      hide Coprime, Normal;
      var rNum, rDen := r.num, r.den;
      ghost var a, b := num, den;
      NormalParts(a, b);
      NormalParts(rNum, rDen);
      if rNum == 0 {
        return false;
      }
      if num == 0 {
        return true;
      }
      ghost var h1, a1, c1 := GcdQuotients(num, rNum);
      ghost var h2, d1, b1 := GcdQuotients(rDen, den);
      var gcd1 := Gcd(Abs(num), Abs(rNum));
      var gcd2 := Gcd(Abs(rDen), Abs(den));
      num := (num / gcd1) * (rDen / gcd2);
      den := (den / gcd2) * (rNum / gcd1);
      CoprimeSymmetric(rNum, rDen);
      ProductNormal(a, b, rDen, rNum, a1, c1, h1, d1, b1, h2);
      ProductValue(a, b, rDen, rNum, a1, c1, h1, d1, b1, h2);
      NonZeroProduct(b1, h2, c1, h1);
      if den < 0 {
        CoprimeNegate(num, den);
        NegatedValue(num, den, a * rDen, b * rNum);
        num := -num;
        den := -den;
      }
      NormalIntro(num, den);
      ok := true;
    }

    /** operator<: the continued-fraction comparison agrees with cross-multiplication. */
    method Less(r: Rational) returns (less: bool)
      requires den > 0 && r.den > 0
      ensures less <==> num * r.den < r.num * den
    {
      hide CrossLess, TDiv;
      ghost var expected := CrossLess(num, den, r.num, r.den);
      var tn, td, tq, tr := FloorParts(num, den);
      var rn, rd, rq, rr := FloorParts(r.num, r.den);
      var reverse := false;
      CrossLessMeaning(num, den, r.num, r.den);
      while true
        invariant 0 <= tr < td && 0 <= rr < rd && tn == tq * td + tr && rn == rq * rd + rr
        invariant expected <==> if reverse then CrossLess(rn, rd, tn, td) else CrossLess(tn, td, rn, rd)
        decreases td
      {
        if tq != rq {
          if tq < rq {
            QuotientsDecide(tn, td, tq, tr, rn, rd, rq, rr);
          } else {
            QuotientsDecide(rn, rd, rq, rr, tn, td, tq, tr);
          }
          return if reverse then tq > rq else tq < rq;
        }
        reverse := !reverse;
        if tr == 0 || rr == 0 {
          ExpansionEnds(tn, td, tq, tr, rn, rd, rr);
          break;
        }
        Reciprocate(tn, td, tq, tr, rn, rd, rr);
        tn, td := td, tr;
        tq, tr := tn / td, tn % td;
        rn, rd := rd, rr;
        rq, rr := rn / rd, rn % rd;
      }
      if tr == rr {
        less := false;
      } else {
        less := (tr != 0) != reverse;
      }
    }
  }

  lemma CrossLessMeaning(n1: int, d1: int, n2: int, d2: int)
    ensures CrossLess(n1, d1, n2, d2) <==> n1 * d2 < n2 * d1
  {
  }

  /** The first cycle: truncated division, then the remainder raised to be nonnegative. */
  method FloorParts(num: int, den: int) returns (n: int, d: int, q: int, r: int)
    requires den > 0
    ensures n == num && d == den && n == q * d + r && 0 <= r < d
  {
    hide TDiv;
    TruncatedRemainder(num, den);
    n, d, q := num, den, TDiv(num, den);
    r := n - q * d;
    while r < 0
      invariant n == q * d + r && -d < r < d
      decreases -r
    {
      assert (q - 1) * d == q * d - d;
      r := r + d;
      q := q - 1;
    }
  }

  lemma NormalParts(num: int, den: int)
    requires Normal(num, den)
    ensures den > 0 && Coprime(num, den)
  {
    CoprimeIsGcdOne(num, den);
  }

  lemma NormalIntro(num: int, den: int)
    requires den > 0 && Coprime(num, den)
    ensures Normal(num, den)
  {
    CoprimeIsGcdOne(num, den);
  }

  lemma PositiveQuotient(b: int, b1: int, g: int)
    requires b > 0 && g > 0 && b == b1 * g
    ensures b1 > 0
  {
    MulLtCancel(0, b1, g);
  }

  lemma NonZeroProduct(x: int, g: int, y: int, h: int)
    requires x * g != 0 && y * h != 0
    ensures x * y != 0
  {
    assert (x * g) * (y * h) == (x * y) * (g * h);
  }

  lemma ReducedValue(n: int, d: int, k: int, l: int, g: int)
    requires n == k * g && d == l * g && d != 0
    ensures SameValue(k, l, n, d) && l != 0
  {
    assert k * (l * g) == (k * g) * l;
  }

  lemma NegatedValue(num: int, den: int, n: int, d: int)
    requires SameValue(num, den, n, d)
    ensures SameValue(-num, -den, n, d)
  {
    assert (-num) * d == -(num * d) && n * (-den) == -(n * den);
  }

  /** r_den / gcd(num, g) is d1 * g1. */
  lemma DenominatorStep(rDen: int, d1: int, g: int, g1: int, h: nat)
    requires rDen == d1 * g && g == g1 * h && h > 0
    ensures rDen / h == d1 * g1
  {
    assert d1 * (g1 * h) == (d1 * g1) * h;
    DivModUnique(rDen, h, d1 * g1, 0);
  }

  lemma DenominatorPositive(b: int, d: int, b1: int, d1: int, g: int, g1: int, h: int)
    requires b > 0 && d > 0 && g > 0 && h > 0 && b == b1 * g && d == d1 * g && g == g1 * h
    ensures b1 * (d1 * g1) > 0
  {
    PositiveQuotient(b, b1, g);
    PositiveQuotient(d, d1, g);
    PositiveQuotient(g, g1, h);
    MulLe2(1, 1, d1, g1);
    MulLe2(1, 1, b1, d1 * g1);
  }

  /** The denominator of a fraction in lowest terms divides every denominator of the same value. */
  lemma LowestDenominator(a: int, b: int, c: int, d: int) returns (k: int)
    requires Normal(a, b) && SameValue(a, b, c, d)
    ensures d == b * k
  {
    NormalParts(a, b);
    var x, y := CoprimeElim(a, b);
    k := x * c + y * d;
    LowestStep(a, b, c, d, x, y);
  }

  lemma LowestStep(a: int, b: int, c: int, d: int, x: int, y: int)
    requires x * a + y * b == 1 && a * d == c * b
    ensures d == b * (x * c + y * d)
  {
    assert d * (x * a + y * b) == x * (a * d) + y * b * d;
    assert b * (x * c + y * d) == x * (c * b) + y * b * d;
  }

  /** operator==: fractions in lowest terms have the same value exactly when their parts are equal. */
  lemma EqualExactly(a: int, b: int, c: int, d: int)
    requires Normal(a, b) && Normal(c, d)
    ensures SameValue(a, b, c, d) <==> a == c && b == d
  {
    if SameValue(a, b, c, d) {
      var k := LowestDenominator(a, b, c, d);
      var l := LowestDenominator(c, d, a, b);
      NormalParts(a, b);
      NormalParts(c, d);
      MutualMultiples(b, d, k, l);
      if a < c { MulLt(a, c, b); }
      if c < a { MulLt(c, a, b); }
    }
  }

  lemma MutualMultiples(b: int, d: int, k: int, l: int)
    requires 0 < b && 0 < d && d == b * k && b == d * l
    ensures b == d
  {
    if k <= 0 { MulLe(k, 0, b); }
    if l <= 0 { MulLe(l, 0, d); }
    MulLe(1, k, b);
    MulLe(1, l, d);
  }
}
