/**
 Greatest common divisors of libs/eosio.evm/external/mini-gmp/mini-gmp.c over mathematical integers:
 the limb-level binary gcd and the extended gcd with its scaled Bezout identities.
 */
module MiniGmpGcd {
  import opened Products
  import opened PowersOfTwo
  import opened NumberTheory

  predicate Odd(x: int) {
    x % 2 == 1
  }

  /** Position of the lowest set bit. */
  function TrailingZeros(r: nat): nat
    requires r > 0
  {
    if Odd(r) then 0 else 1 + TrailingZeros(r / 2)
  }

  /** Scanning for the lowest set bit and shifting it out leaves an odd number. */
  lemma {:induction false} ShiftOut(r: nat)
    requires r > 0
    ensures var p := Pow2(TrailingZeros(r)); r == r / p * p && Odd(r / p) && r / p > 0
  {
    if Odd(r) {
    } else {
      ShiftOut(r / 2);
      var p := Pow2(TrailingZeros(r / 2));
      TwiceShifted(r, p, r / 2 / p);
    }
  }

  lemma TwiceShifted(r: nat, p: nat, k: nat)
    requires !Odd(r) && p >= 1 && r / 2 == k * p
    ensures r / (2 * p) == k && r == k * (2 * p)
  {
    DivModUnique(r, 2 * p, k, 0);
  }

  function OddPart(r: nat): nat
    requires r > 0
  {
    r / Pow2(TrailingZeros(r))
  }

  /** mpz_make_odd: removes the factors of two and reports how many there were. */
  method MakeOdd(r: nat) returns (odd: nat, shift: nat)
    requires r > 0
    ensures r == odd * Pow2(shift) && Odd(odd) && 0 < odd <= r
    ensures odd == OddPart(r)
  {
    shift := TrailingZeros(r);
    odd := r / Pow2(shift);
    ShiftOut(r);
    MulLe(1, Pow2(shift), odd);
  }

  lemma OddProduct(a: int, b: int)
    ensures Odd(a * b) <==> Odd(a) && Odd(b)
  {
    var i, j := a / 2, b / 2;
    if !Odd(a) {
      EvenTimes(i, b);
      assert a == 2 * i;
    } else if !Odd(b) {
      EvenTimes(j, a);
      assert b == 2 * j;
    } else {
      OddTimesOdd(a, b, i, j);
    }
  }

  lemma OddTimesOdd(a: int, b: int, i: int, j: int)
    requires a == 2 * i + 1 && b == 2 * j + 1
    ensures Odd(a * b)
  {
    assert a * b == 2 * (2 * i * j + i + j) + 1;
  }

  lemma EvenTimes(i: int, b: int)
    ensures !Odd((2 * i) * b) && !Odd(b * (2 * i))
  {
    assert (2 * i) * b == 2 * (i * b);
    assert b * (2 * i) == 2 * (i * b);
  }

  /** Number of limbs of a size in base `limb`: GMP compares these before it swaps operands. */
  function LimbCount(x: nat, limb: nat): nat
    requires limb >= 2
  {
    if x == 0 then 0 else 1 + LimbCount(x / limb, limb)
  }

  // ---------- the binary loop ----------

  /** u = t0*tu + t1*tv and v = s0*tu + s1*tv with determinant 2^power. */
  ghost predicate Cofactors(u: int, v: int, tu: int, tv: int, s0: int, s1: int, t0: int, t1: int, power: nat) {
    && u == t0 * tu + t1 * tv
    && v == s0 * tu + s1 * tv
    && t0 * s1 - t1 * s0 == Pow2(power)
    && s0 >= 0 && s1 >= 0 && t0 >= 0 && t1 >= 0
  }

  /** After the initial division tu0 = q*tv + tu. */
  lemma CofactorsStart(u: int, v: int, tu0: int, tv: int, q: int, tu: int, uz: nat, vz: nat)
    requires u == tu0 * Pow2(uz) && v == tv * Pow2(vz)
    requires tu0 == q * tv + tu && q >= 0
    ensures Cofactors(u, v, tu, tv, 0, Pow2(vz), Pow2(uz), q * Pow2(uz), uz + vz)
  {
    hide Pow2;
    Pow2Add(uz, vz);
    MulNonNeg(q, Pow2(uz));
    assert (q * tv + tu) * Pow2(uz) == Pow2(uz) * tu + (q * Pow2(uz)) * tv;
  }

  /** Factors of two leave tu and enter its cofactors. */
  lemma CofactorsShift(u: int, v: int, tu: int, tv: int, s0: int, s1: int, t0: int, t1: int, power: nat, odd: int, shift: nat)
    requires Cofactors(u, v, tu, tv, s0, s1, t0, t1, power) && tu == odd * Pow2(shift)
    ensures Cofactors(u, v, odd, tv, s0 * Pow2(shift), s1, t0 * Pow2(shift), t1, power + shift)
  {
    hide Pow2;
    var p := Pow2(shift);
    Pow2Add(power, shift);
    MulNonNeg(s0, p);
    MulNonNeg(t0, p);
    assert t0 * (odd * p) == (t0 * p) * odd;
    assert s0 * (odd * p) == (s0 * p) * odd;
    assert (t0 * p) * s1 - t1 * (s0 * p) == (t0 * s1 - t1 * s0) * p;
  }

  /** The roles of tu and tv exchanged: the determinant keeps its sign. */
  lemma CofactorsShiftSecond(u: int, v: int, tu: int, tv: int, s0: int, s1: int, t0: int, t1: int, power: nat, odd: int, shift: nat)
    requires Cofactors(u, v, tu, tv, s0, s1, t0, t1, power) && tv == odd * Pow2(shift)
    ensures Cofactors(u, v, tu, odd, s0, s1 * Pow2(shift), t0, t1 * Pow2(shift), power + shift)
  {
    hide Pow2;
    var p := Pow2(shift);
    Pow2Add(power, shift);
    MulNonNeg(s1, p);
    MulNonNeg(t1, p);
    assert t1 * (odd * p) == (t1 * p) * odd;
    assert s1 * (odd * p) == (s1 * p) * odd;
    assert t0 * (s1 * p) - (t1 * p) * s0 == (t0 * s1 - t1 * s0) * p;
  }

  /** tv' = tv - tu moves t1 into t0 and s1 into s0. */
  lemma CofactorsSubtractSecond(u: int, v: int, tu: int, tv: int, s0: int, s1: int, t0: int, t1: int, power: nat)
    requires Cofactors(u, v, tu, tv, s0, s1, t0, t1, power)
    ensures Cofactors(u, v, tu, tv - tu, s0 + s1, s1, t0 + t1, t1, power)
  {
    hide Pow2;
    assert (t0 + t1) * tu + t1 * (tv - tu) == t0 * tu + t1 * tv;
    assert (s0 + s1) * tu + s1 * (tv - tu) == s0 * tu + s1 * tv;
    assert (t0 + t1) * s1 - t1 * (s0 + s1) == t0 * s1 - t1 * s0;
  }

  lemma CofactorsSubtractFirst(u: int, v: int, tu: int, tv: int, s0: int, s1: int, t0: int, t1: int, power: nat)
    requires Cofactors(u, v, tu, tv, s0, s1, t0, t1, power)
    ensures Cofactors(u, v, tu - tv, tv, s0, s0 + s1, t0, t0 + t1, power)
  {
    hide Pow2;
    assert t0 * (tu - tv) + (t0 + t1) * tv == t0 * tu + t1 * tv;
    assert s0 * (tu - tv) + (s0 + s1) * tv == s0 * tu + s1 * tv;
    assert t0 * (s0 + s1) - (t0 + t1) * s0 == t0 * s1 - t1 * s0;
  }

  /** The subtract-and-shift loop: ends with tu = tv, or at once when the division was exact. */
  method BinaryLoop(ghost u: nat, ghost v: nat, tu0: nat, tv0: nat, uz: nat, vz: nat)
    returns (tv: nat, s0: int, t0: int, power: nat, ghost s: int, ghost t: int)
    requires tu0 > 0 && tv0 > 0 && Odd(tv0)
    requires u == tu0 * Pow2(uz) && v == tv0 * Pow2(vz)
    ensures tv > 0 && Odd(tv)
    ensures u == t * tv && v == s * tv
    ensures t0 * s - s0 * t == Pow2(power)
    ensures 0 <= s0 <= s
  {
    hide Pow2, Cofactors;
    var tu, q, t1, s1, shift;
    tu, tv := tu0, tv0;
    t0 := Pow2(uz);
    q, tu := tu / tv, tu % tv;
    t1 := q * Pow2(uz);
    s0, s1 := 0, Pow2(vz);
    power := uz + vz;
    CofactorsStart(u, v, tu0, tv, q, tu, uz, vz);
    if tu > 0 {
      ghost var before := tu;
      tu, shift := MakeOdd(tu);
      CofactorsShift(u, v, before, tv, s0, s1, t0, t1, power, tu, shift);
      t0, s0 := t0 * Pow2(shift), s0 * Pow2(shift);
      power := power + shift;
      while tu != tv
        invariant tu > 0 && tv > 0 && Odd(tu) && Odd(tv)
        invariant Cofactors(u, v, tu, tv, s0, s1, t0, t1, power)
        decreases tu + tv
      {
        if tu < tv {
          CofactorsSubtractSecond(u, v, tu, tv, s0, s1, t0, t1, power);
          tv := tv - tu;
          t0, s0 := t0 + t1, s0 + s1;
          before := tv;
          tv, shift := MakeOdd(tv);
          CofactorsShiftSecond(u, v, tu, before, s0, s1, t0, t1, power, tv, shift);
          t1, s1 := t1 * Pow2(shift), s1 * Pow2(shift);
        } else {
          CofactorsSubtractFirst(u, v, tu, tv, s0, s1, t0, t1, power);
          tu := tu - tv;
          t1, s1 := t0 + t1, s0 + s1;
          before := tu;
          tu, shift := MakeOdd(tu);
          CofactorsShift(u, v, before, tv, s0, s1, t0, t1, power, tu, shift);
          t0, s0 := t0 * Pow2(shift), s0 * Pow2(shift);
        }
        power := power + shift;
      }
      s, t := s0 + s1, t0 + t1;
      LoopEnd(u, v, tv, s0, s1, t0, t1, power);
    } else {
      s, t := s1, t1;
      ExactEnd(u, v, tv, s1, t0, t1, power);
    }
  }

  lemma LoopEnd(u: int, v: int, tv: int, s0: int, s1: int, t0: int, t1: int, power: nat)
    requires Cofactors(u, v, tv, tv, s0, s1, t0, t1, power)
    ensures u == (t0 + t1) * tv && v == (s0 + s1) * tv
    ensures t0 * (s0 + s1) - s0 * (t0 + t1) == Pow2(power)
    ensures 0 <= s0 <= s0 + s1
  {
    hide Pow2;
    assert t0 * (s0 + s1) - s0 * (t0 + t1) == t0 * s1 - t1 * s0;
  }

  lemma ExactEnd(u: int, v: int, tv: int, s1: int, t0: int, t1: int, power: nat)
    requires Cofactors(u, v, 0, tv, 0, s1, t0, t1, power)
    ensures u == t1 * tv && v == s1 * tv && t0 * s1 - 0 * t1 == Pow2(power) && 0 <= s1
  {
  }

  // ---------- removing the power of two ----------

  /** s0*t1 + t0*s1 = 2^power, with |u|/g = t1 and |v|/g = s1 not both even. */
  ghost predicate Scaled(s0: int, t0: int, s1: int, t1: int, power: nat) {
    s0 * t1 + t0 * s1 == Pow2(power) && (Odd(s1) || Odd(t1)) && -s1 <= s0 <= 0
  }

  /** s0*t1 + t0*s1 even with s1, t1 not both even: the optional correction makes both cofactors even. */
  lemma CorrectionMakesEven(s0: int, t0: int, s1: int, t1: int)
    requires !Odd(s0 * t1 + t0 * s1) && (Odd(s1) || Odd(t1))
    ensures Odd(s0) || Odd(t0) ==> !Odd(s0 - s1) && !Odd(t0 + t1)
  {
    hide Odd;
    OddProduct(s0, t1);
    OddProduct(t0, s1);
    OddSum(s0 * t1, t0 * s1);
    OddSum(s0, s1);
    OddSum(t0, t1);
  }

  lemma OddSum(x: int, y: int)
    ensures Odd(x + y) <==> Odd(x) != Odd(y)
    ensures Odd(x - y) <==> Odd(x) != Odd(y)
  {
    var i, j, a, b := x / 2, y / 2, x % 2, y % 2;
    assert x + y == 2 * (i + j) + (a + b) && x - y == 2 * (i - j) + (a - b);
  }

  lemma HalveIdentity(s: int, t: int, s1: int, t1: int, p: int)
    requires s * t1 + t * s1 == 2 * p && !Odd(s) && !Odd(t)
    ensures s / 2 * t1 + t / 2 * s1 == p
  {
    var i, j := s / 2, t / 2;
    assert s == 2 * i && t == 2 * j;
    assert (2 * i) * t1 == 2 * (i * t1) && (2 * j) * s1 == 2 * (j * s1);
  }

  lemma CorrectIdentity(s0: int, t0: int, s1: int, t1: int)
    ensures (s0 - s1) * t1 + (t0 + t1) * s1 == s0 * t1 + t0 * s1
  {
  }

  /** One step of the halving loop: after the optional correction both cofactors are even. */
  lemma HalvingStep(s0: int, t0: int, s1: int, t1: int, power: nat)
    requires power > 0 && Scaled(s0, t0, s1, t1, power)
    ensures var fix := Odd(s0) || Odd(t0);
            var s, t := if fix then s0 - s1 else s0, if fix then t0 + t1 else t0;
            !Odd(s) && !Odd(t) && Scaled(s / 2, t / 2, s1, t1, power - 1)
  {
    hide Odd;
    EvenPower(power);
    CorrectionMakesEven(s0, t0, s1, t1);
    CorrectIdentity(s0, t0, s1, t1);
    if Odd(s0) || Odd(t0) {
      HalveIdentity(s0 - s1, t0 + t1, s1, t1, Pow2(power - 1));
    } else {
      HalveIdentity(s0, t0, s1, t1, Pow2(power - 1));
    }
  }

  lemma EvenPower(power: nat)
    requires power > 0
    ensures !Odd(Pow2(power))
  {
  }

  method RemovePower(s: int, t: int, s1: int, t1: int, p: nat) returns (s0: int, t0: int)
    requires Scaled(s, t, s1, t1, p)
    ensures Scaled(s0, t0, s1, t1, 0)
  {
    hide Scaled;
    s0, t0 := s, t;
    var power := p;
    while power > 0
      invariant Scaled(s0, t0, s1, t1, power)
    {
      power := power - 1;
      HalvingStep(s0, t0, s1, t1, power + 1);
      if Odd(s0) || Odd(t0) {
        s0 := s0 - s1;
        t0 := t0 + t1;
      }
      assert !Odd(t0) && !Odd(s0);  // the assertion in the source
      s0 := s0 / 2;
      t0 := t0 / 2;
    }
  }

  // ---------- mpz_gcdext ----------

  function Sign(x: int): int {
    if x < 0 then -1 else if x == 0 then 0 else 1
  }

  /** The cofactors for |u| and |v| carry over to u and v with the signs of u and v. */
  lemma SignedBezout(u: int, v: int, s: int, t: int, g: int)
    requires s * Abs(u) + t * Abs(v) == g
    ensures (if u < 0 then -s else s) * u + (if v < 0 then -t else t) * v == g
  {
  }

  /** The common factor 2^gz put back: quotients and Bezout identity for the inputs themselves. */
  lemma Assemble(a: nat, b: nat, g: nat, s: int, t: int, s0: int, t0: int)
    requires a == t * g && b == s * g && g > 0
    requires s0 * t + t0 * s == 1
    ensures s0 * a + t0 * b == g && Div(g, a) && Div(g, b)
    ensures b / g == s && a / g == t
  {
    DivIntro(g, a, t);
    DivIntro(g, b, s);
    assert s0 * (t * g) + t0 * (s * g) == (s0 * t + t0 * s) * g;
    DivModUnique(a, g, t, 0);
    DivModUnique(b, g, s, 0);
  }

  /** The final choice of the smaller cofactor keeps the identity and halves the bound. */
  lemma SmallerCofactor(s0: int, t0: int, s1: int, t1: int)
    requires Scaled(s0, t0, s1, t1, 0)
    ensures var swap := Abs(s0) > Abs(s0 + s1);
            var s, t := if swap then s0 + s1 else s0, if swap then t0 - t1 else t0;
            s * t1 + t * s1 == 1 && 2 * Abs(s) <= s1
  {
    assert (s0 + s1) * t1 + (t0 - t1) * s1 == s0 * t1 + t0 * s1;
  }

  /** x is a cofactor of u, one for which some y has x*u + y*v = g, and is below u/2g. */
  ghost predicate BelowHalf(x: int, g: nat, v: nat, u: nat) {
    2 * Abs(x) * g < u && Div(v, x * u - g)
  }

  /** There are cofactors for the bound the comment promises, whoever finds them. */
  ghost predicate CanBeKept(g: nat, v: nat, u: nat) {
    exists x: int :: BelowHalf(x, g, v, u)
  }

  /**
   * What the cofactor s of u is worth: at most |v|/2g, exactly that only when |v| = 2g. It is below |u|/2g exactly when
   * any cofactor can be, and so whenever |v| <= |u|.
   */
  ghost predicate SmallCofactor(s: int, g: nat, v: nat, u: nat) {
    && 2 * Abs(s) * g <= v
    && (2 * Abs(s) * g == v <==> v == 2 * g)
    && (2 * Abs(s) * g < u <==> CanBeKept(g, v, u))
    && (v <= u ==> 2 * Abs(s) * g < u)
  }

  lemma CofactorIsSmall(s: int, t: int, a: nat, b: nat, g: nat)
    requires a > 0 && b > 0 && g > 0 && s * a + t * b == 1 && 2 * Abs(s) <= b
    ensures SmallCofactor(s, g, b * g, a * g)
  {
    hide CanBeKept;
    CofactorBounds(s, t, a, b);
    KeptExactly(s, t, a, b, g);
    var n := 2 * Abs(s);
    MulLe(n, b, g);
    if n < b { MulLt(n, b, g); }
    if b < 2 { MulLt(b, 2, g); }
    if 2 < b { MulLt(2, b, g); }
    if a < b { MulLt(a, b, g); } else { MulLt(n, a, g); }
  }

  /** A cofactor of at most b/2 is the smallest there is: others differ from it by multiples of b. */
  lemma MinimalCofactor(s: int, t: int, x: int, y: int, a: nat, b: nat)
    requires b > 0 && s * a + t * b == 1 && 2 * Abs(s) <= b && x * a + y * b == 1
    ensures Abs(s) <= Abs(x)
  {
    var k := s * (y - t) + t * (s - x);
    CofactorDifference(s, t, x, y, a, b);
    if k >= 1 { MulLe(1, k, b); }
    if k <= -1 { MulLe(k, -1, b); }
  }

  lemma CofactorDifference(s: int, t: int, x: int, y: int, a: int, b: int)
    requires s * a + t * b == 1 && x * a + y * b == 1
    ensures s - x == (s * (y - t) + t * (s - x)) * b
  {
    var d, e := s - x, y - t;
    assert d * a == e * b by { assert d * a == s * a - x * a && e * b == y * b - t * b; }
    assert d * (s * a + t * b) == s * (d * a) + t * d * b;
    assert s * (e * b) + t * d * b == (s * e + t * d) * b;
  }

  /** The bound of the comment is kept exactly when it can be. */
  lemma KeptExactly(s: int, t: int, a: nat, b: nat, g: nat)
    requires b > 0 && g > 0 && s * a + t * b == 1 && 2 * Abs(s) <= b
    ensures 2 * Abs(s) * g < a * g <==> CanBeKept(g, b * g, a * g)
  {
    hide Div;
    if 2 * Abs(s) * g < a * g {
      ScaledIdentity(s, t, a, b, g);
      DivIntro(b * g, s * (a * g) - g, -t);
      assert BelowHalf(s, g, b * g, a * g);
    }
    if CanBeKept(g, b * g, a * g) {
      var x :| BelowHalf(x, g, b * g, a * g);
      var k := DivElim(b * g, x * (a * g) - g);
      UnscaledIdentity(x, k, a, b, g);
      MinimalCofactor(s, t, x, -k, a, b);
      MulLe(2 * Abs(s), 2 * Abs(x), g);
    }
  }

  lemma ScaledIdentity(s: int, t: int, a: int, b: int, g: int)
    requires s * a + t * b == 1
    ensures s * (a * g) - g == -t * (b * g)
  {
    CombineScaled(s, a, t, b, g);
  }

  lemma UnscaledIdentity(x: int, k: int, a: int, b: int, g: nat)
    requires x * (a * g) - g == k * (b * g) && g > 0
    ensures x * a + (-k) * b == 1
  {
    CombineScaled(x, a, -k, b, g);
    UnitFactor(x * a + (-k) * b, g);
  }

  lemma CofactorBounds(s: int, t: int, a: nat, b: nat)
    requires a > 0 && b > 0 && s * a + t * b == 1 && 2 * Abs(s) <= b
    ensures 2 * Abs(s) == b <==> b == 2
    ensures b <= a ==> 2 * Abs(s) < a
  {
    if 2 * Abs(s) == b { ExactHalf(s, t, a, b); }
    if b == 2 { NotBothEven(s, t, a); }
  }

  lemma ExactHalf(s: int, t: int, a: nat, b: nat)
    requires s * a + t * b == 1 && 2 * Abs(s) == b
    ensures b == 2
  {
    var sign := if s < 0 then -1 else 1;
    HalfFactor(s, t, a, b, sign);
    FactorOfOne(Abs(s), sign * a + 2 * t);
  }

  lemma NotBothEven(s: int, t: int, a: int)
    requires s * a + t * 2 == 1
    ensures s != 0 && Odd(a)
  {
    OddRest(s * a, t);
    OddProduct(s, a);
  }

  lemma OddRest(p: int, t: int)
    requires p + t * 2 == 1
    ensures Odd(p)
  {
  }

  lemma HalfFactor(s: int, t: int, a: int, b: int, sign: int)
    requires b == 2 * Abs(s) && sign == if s < 0 then -1 else 1
    ensures Abs(s) * (sign * a + 2 * t) == s * a + t * b
  {
  }

  lemma FactorOfOne(x: nat, y: int)
    requires x * y == 1
    ensures x == 1
  {
    if y <= 0 { MulLe(y, 0, x); } else { MulLe(1, y, x); }
  }

  /**
   * How large v may be for u: with |u| = a*g and |v| = b*g no cofactor of u, whatever the algorithm, is below |u|/2g once
   * 2b exceeds a*a - a + 2.
   */
  lemma NoSmallerCofactor(s: int, t: int, g: nat, u: int, v: int)
    requires g > 0 && s * u + t * v == g && Div(g, u) && Div(g, v) && u != 0 && v != 0
    requires 2 * Abs(v) * g > Abs(u) * Abs(u) - Abs(u) * g + 2 * g * g
    ensures 2 * Abs(s) * g >= Abs(u)
  {
    hide Div;
    DivAbs(g, u);
    DivAbs(g, v);
    var a := DivElim(g, Abs(u));
    var b := DivElim(g, Abs(v));
    MulLtCancel(0, a, g);
    MulLtCancel(0, b, g);
    var x, y := if u < 0 then -s else s, if v < 0 then -t else t;
    SignedProduct(s, u);
    SignedProduct(t, v);
    CombineScaled(x, a, y, b, g);
    UnitFactor(x * a + y * b, g);
    SizesUnscaled(a, b, g);
    FarCofactor(x, y, a, b);
    MulLe(a, 2 * Abs(x), g);
  }

  lemma SignedProduct(s: int, u: int)
    ensures (if u < 0 then -s else s) * Abs(u) == s * u
  {
  }

  lemma SizesUnscaled(a: int, b: int, g: nat)
    requires g > 0 && 2 * (b * g) * g > (a * g) * (a * g) - (a * g) * g + 2 * g * g
    ensures 2 * b > a * a - a + 2
  {
    var gg := g * g;
    assert (a * g) * (a * g) == (a * a) * gg && (a * g) * g == a * gg && 2 * (b * g) * g == (2 * b) * gg;
    assert (a * a - a + 2) * gg == (a * a) * gg - a * gg + 2 * gg;
    MulLe2(1, 1, g, g);
    MulLtCancel(a * a - a + 2, 2 * b, gg);
  }

  lemma FarCofactor(x: int, y: int, a: nat, b: nat)
    requires a > 0 && b > 0 && x * a + y * b == 1 && 2 * b > a * a - a + 2
    ensures 2 * Abs(x) >= a
  {
    if y == 0 {
      DivisorOfOne(a, x);
    } else {
      if y > 0 { MulLe(1, y, b); } else { MulLe(y, -1, b); }
      SignedProduct(1, x * a);
      assert Abs(x) * a == Abs(x * a);
      if 2 * Abs(x) <= a - 1 { NearProduct(Abs(x), a); }
    }
  }

  lemma NearProduct(x: nat, a: nat)
    requires 2 * x <= a - 1
    ensures 2 * (x * a) <= a * a - a
  {
    MulLe(2 * x, a - 1, a);
    assert (a - 1) * a == a * a - a;
  }

  /** For every odd a the largest b within that limit still has a cofactor below a/2. */
  lemma LimitIsSharp(n: int)
    requires 0 <= n
    ensures var a, b := 2 * n + 1, 2 * n * n + n + 1;
      2 * b == a * a - a + 2 && -n * a + 1 * b == 1 && 2 * Abs(-n) < a
  {
    var nn := n * n;
    assert (2 * n + 1) * (2 * n + 1) == 4 * nn + 4 * n + 1;
    assert -n * (2 * n + 1) == -2 * nn - n;
  }

  /** Within the limit, with u below v, it depends on the pair: 5 has a cofactor for 9 below 5/2, but none for 7. */
  lemma EitherBetween(s: int, t: int)
    ensures 2 * 5 + -1 * 9 == 1 && 2 * Abs(2) < 5
    ensures s * 5 + t * 7 == 1 ==> 2 * Abs(s) >= 5
  {
  }

  lemma DivisorOfOne(k: int, t: int)
    requires t * k == 1
    ensures Abs(k) == 1
  {
    if k < 0 { FactorOfOne(-k, -t); } else { FactorOfOne(k, t); }
  }

  /** Both operands non-zero; a is the one with at least as many limbs after oddification. */
  method ExtendedOrdered(a: nat, b: nat, oddA: nat, oddB: nat, az: nat, bz: nat, gz: nat)
    returns (g: nat, s: int, t: int)
    requires oddA > 0 && oddB > 0 && Odd(oddA) && Odd(oddB)
    requires a == oddA * Pow2(az) * Pow2(gz) && b == oddB * Pow2(bz) * Pow2(gz)
    requires az == 0 || bz == 0
    ensures g > 0 && s * a + t * b == g && Div(g, a) && Div(g, b)
    ensures SmallCofactor(s, g, b, a)
  {
    hide Pow2, Scaled, Div, SmallCofactor;
    ghost var u, v := oddA * Pow2(az), oddB * Pow2(bz);
    var tv, s0, t0, power;
    ghost var sq, tq;
    tv, s0, t0, power, sq, tq := BinaryLoop(u, v, oddA, oddB, az, bz);
    g := tv * Pow2(gz);
    s0 := -s0;
    Quotients(a, b, u, v, tv, Pow2(gz), sq, tq);
    var s1 := b / g;
    var t1 := a / g;
    StartScaled(oddA, oddB, az, bz, tv, s0, t0, s1, t1, power);
    s0, t0 := RemovePower(s0, t0, s1, t1, power);
    SmallerCofactor(s0, t0, s1, t1);
    var other := s0 + s1;
    if Abs(s0) > Abs(other) {
      s0 := other;
      t0 := t0 - t1;
    }
    s, t := s0, t0;
    Assemble(a, b, g, s1, t1, s, t);
    CofactorIsSmall(s, t, t1, s1, g);
  }

  lemma Quotients(a: nat, b: nat, u: nat, v: nat, tv: nat, p: nat, s: int, t: int)
    requires a == u * p && b == v * p && u == t * tv && v == s * tv && tv > 0 && p >= 1
    ensures tv * p > 0 && a == t * (tv * p) && b == s * (tv * p)
    ensures a / (tv * p) == t && b / (tv * p) == s
  {
    MulLe2(1, 1, tv, p);
    assert t * tv * p == t * (tv * p) && s * tv * p == s * (tv * p);
    DivModUnique(a, tv * p, t, 0);
    DivModUnique(b, tv * p, s, 0);
  }

  lemma StartScaled(oddA: nat, oddB: nat, az: nat, bz: nat, tv: nat, s0: int, t0: int, s1: int, t1: int, power: nat)
    requires Odd(oddA) && Odd(oddB) && Odd(tv) && (az == 0 || bz == 0)
    requires oddA * Pow2(az) == t1 * tv && oddB * Pow2(bz) == s1 * tv
    requires t0 * s1 - (-s0) * t1 == Pow2(power) && 0 <= -s0 <= s1
    ensures Scaled(s0, t0, s1, t1, power)
  {
    hide Pow2;
    Pow2Of1();
    if az == 0 {
      OddProduct(t1, tv);
    } else {
      OddProduct(s1, tv);
    }
  }

  /** Without its factors of two u has at least as many limbs as v: the operands are not exchanged. */
  predicate KeepsOrder(u: nat, v: nat, limb: nat)
    requires u > 0 && v > 0 && limb >= 2
  {
    LimbCount(OddPart(u), limb) >= LimbCount(OddPart(v), limb)
  }

  /** mpz_gcdext: the greatest common divisor with Bezout cofactors, for all signs and any limb size. */
  method GcdExt(u: int, v: int, limb: nat) returns (g: int, s: int, t: int)
    requires limb >= 2
    ensures IsGcd(g, u, v)
    ensures s * u + t * v == g
    ensures g >= 0
    ensures u != 0 && v != 0 ==>
      if KeepsOrder(Abs(u), Abs(v), limb) then SmallCofactor(s, g, Abs(v), Abs(u)) else SmallCofactor(t, g, Abs(u), Abs(v))
  {
    hide Pow2, Div, OddPart, LimbCount, CanBeKept;
    if u == 0 {
      g, s, t := Abs(v), 0, Sign(v);
      TrivialGcd(v);
      return;
    }
    if v == 0 {
      g, s, t := Abs(u), Sign(u), 0;
      TrivialGcd(u);
      return;
    }
    var tu, uz := MakeOdd(Abs(u));
    var tv, vz := MakeOdd(Abs(v));
    var gz := if uz < vz then uz else vz;
    uz, vz := uz - gz, vz - gz;
    Pow2Add(uz, gz);
    Pow2Add(vz, gz);
    SplitPower(Abs(u), tu, Pow2(uz), Pow2(gz));
    SplitPower(Abs(v), tv, Pow2(vz), Pow2(gz));
    if LimbCount(tu, limb) < LimbCount(tv, limb) {
      g, t, s := ExtendedOrdered(Abs(v), Abs(u), tv, tu, vz, uz, gz);
    } else {
      g, s, t := ExtendedOrdered(Abs(u), Abs(v), tu, tv, uz, vz, gz);
    }
    SignedBezout(u, v, s, t, g);
    if u < 0 { s := -s; }
    if v < 0 { t := -t; }
    DivAbs(g, u);
    DivAbs(g, v);
    BezoutIsGcd(g, u, v, s, t);
  }

  lemma SplitPower(x: int, odd: int, p: int, q: int)
    requires x == odd * (p * q)
    ensures x == odd * p * q
  {
  }

  lemma TrivialGcd(v: int)
    ensures IsGcd(Abs(v), 0, v) && IsGcd(Abs(v), v, 0)
    ensures Sign(v) * v == Abs(v)
  {
    DivIntro(Abs(v), 0, 0);
    DivIntro(Abs(v), v, Sign(v));
    BezoutIsGcd(Abs(v), 0, v, 0, Sign(v));
    BezoutIsGcd(Abs(v), v, 0, Sign(v), 0);
  }

  // ---------- mpn_gcd_11 and mpz_gcd ----------

  /** Next to an odd number, factors of two do not matter. */
  lemma OddDivisors(u: int, v: int)
    requires Odd(v)
    ensures SameDivisors(2 * u, v, u, v)
  {
    forall d: int
      ensures Div(d, 2 * u) && Div(d, v) <==> Div(d, u) && Div(d, v)
    {
      if Div(d, u) { DivMultiple(d, u, 2); }
      if Div(d, 2 * u) && Div(d, v) {
        var k := DivElim(d, 2 * u);
        var l := DivElim(d, v);
        OddProduct(l, d);
        OddProduct(k, d);
        var h := k / 2;
        assert k == 2 * h;
        assert (2 * h) * d == 2 * (h * d);
        DivIntro(d, u, h);
      }
    }
  }

  lemma {:induction false} OddDivisorsPower(u: int, v: int, k: nat)
    requires Odd(v)
    ensures SameDivisors(u * Pow2(k), v, u, v)
  {
    if k == 0 {
    } else {
      OddDivisorsPower(u, v, k - 1);
      assert u * Pow2(k) == 2 * (u * Pow2(k - 1));
      OddDivisors(u * Pow2(k - 1), v);
    }
  }

  /** Halving u while it is even, next to an odd v. */
  method HalveOut(u: nat, v: nat) returns (r: nat)
    requires u > 0 && Odd(v)
    ensures Odd(r) && 0 < r <= u
    ensures SameDivisors(r, v, u, v)
  {
    r := u;
    while !Odd(r)
      invariant 0 < r <= u && SameDivisors(r, v, u, v)
      decreases r
    {
      OddDivisors(r / 2, v);
      r := r / 2;
    }
  }

  function MinNat(a: nat, b: nat): nat {
    if a < b then a else b
  }

  /** mpn_gcd_11: shift out the common twos, then subtract and halve until the operands meet. */
  method Gcd11(u0: nat, v0: nat) returns (g: nat)
    requires u0 > 0 || v0 > 0
    ensures IsGcd(g, u0, v0)
  {
    hide IsGcd, SameDivisors, Pow2;
    SelfGcd(u0);
    SelfGcd(v0);
    if u0 == 0 {
      return v0;
    } else if v0 == 0 {
      return u0;
    }
    // the trailing zeros of u | v are the smaller of the two counts
    var shift := MinNat(TrailingZeros(u0), TrailingZeros(v0));
    var u, v := u0 / Pow2(shift), v0 / Pow2(shift);
    ShiftOutBoth(u0, v0, shift);
    ghost var u1, v1, swap := u, v, !Odd(u);
    if !Odd(u) {
      u, v := v, u;
    }
    g := OddGcd(u, v);
    if swap { SwapGcd(g, u, v); }
    GcdScale(g, u1, v1, Pow2(shift));
    g := g * Pow2(shift);
  }

  /** The subtract-and-halve loop of mpn_gcd_11 for an odd u. */
  method OddGcd(u0: nat, v0: nat) returns (g: nat)
    requires u0 > 0 && v0 > 0 && Odd(u0)
    ensures IsGcd(g, u0, v0)
  {
    hide IsGcd;
    var u, v := u0, v0;
    v := HalveOut(v, u);
    assert SameDivisors(u, v, u0, v0);
    while u != v
      invariant u > 0 && v > 0 && Odd(u) && Odd(v)
      invariant SameDivisors(u, v, u0, v0)
      decreases u + v
    {
      if u > v {
        ReduceDivisors(u, v, 1);
        u := HalveOut(u - v, v);
      } else {
        ReduceDivisors(v, u, 1);
        v := HalveOut(v - u, u);
      }
    }
    SelfGcd(u);
    GcdTransfer(u, u, v, u0, v0);
    g := u;
  }

  lemma {:induction false} ShiftOutBoth(u: nat, v: nat, k: nat)
    requires u > 0 && v > 0 && k == MinNat(TrailingZeros(u), TrailingZeros(v))
    ensures u == u / Pow2(k) * Pow2(k) && v == v / Pow2(k) * Pow2(k)
    ensures u / Pow2(k) > 0 && v / Pow2(k) > 0
    ensures Odd(u / Pow2(k)) || Odd(v / Pow2(k))
  {
    if k == 0 {
    } else {
      ShiftOutBoth(u / 2, v / 2, k - 1);
      HalvedShift(u, k);
      HalvedShift(v, k);
    }
  }

  lemma HalvedShift(u: nat, k: nat)
    requires k > 0 && !Odd(u) && u / 2 == u / 2 / Pow2(k - 1) * Pow2(k - 1)
    ensures u / Pow2(k) == u / 2 / Pow2(k - 1)
    ensures u == u / Pow2(k) * Pow2(k)
  {
    var p := Pow2(k - 1);
    var x := u / 2 / p;
    assert u == x * (2 * p);
    DivModUnique(u, 2 * p, x, 0);
  }

  /** mpz_gcd: for all signs and any limb size. */
  method MpzGcd(u: int, v: int, limb: nat) returns (g: nat)
    requires limb >= 2
    ensures IsGcd(g, u, v)
  {
    hide IsGcd, SameDivisors, Pow2, Div;
    if u == 0 {
      TrivialGcd(v);
      return Abs(v);
    }
    if v == 0 {
      TrivialGcd(u);
      return Abs(u);
    }
    var tu, uz := MakeOdd(Abs(u));
    var tv, vz := MakeOdd(Abs(v));
    ghost var oddU, oddV := tu, tv;
    var gz := MinNat(uz, vz);
    if LimbCount(tu, limb) < LimbCount(tv, limb) {
      tu, tv := tv, tu;
    }
    g := OddPartsGcd(tu, tv, limb);
    if tu != oddU { SwapGcd(g, tu, tv); }
    PowersBack(g, oddU, oddV, uz, vz, gz);
    g := g * Pow2(gz);
    AbsGcd(g, u, v);
  }

  lemma AbsGcd(g: int, u: int, v: int)
    requires IsGcd(g, Abs(u), Abs(v))
    ensures IsGcd(g, u, v)
  {
    forall d: int
      ensures Div(d, Abs(u)) == Div(d, u) && Div(d, Abs(v)) == Div(d, v)
    {
      DivAbs(d, u);
      DivAbs(d, v);
    }
  }

  /** Powers of two on one side only do not change the gcd of odd numbers. */
  lemma PowersApart(g: int, a: nat, b: nat, i: nat, j: nat)
    requires Odd(a) && Odd(b) && IsGcd(g, a, b) && (i == 0 || j == 0)
    ensures IsGcd(g, a * Pow2(i), b * Pow2(j))
  {
    hide IsGcd, SameDivisors, Pow2;
    Pow2Of1();
    if j == 0 {
      OddDivisorsPower(a, b, i);
      SameSymmetric(a * Pow2(i), b, a, b);
      GcdTransfer(g, a, b, a * Pow2(i), b);
    } else {
      OddDivisorsPower(b, a, j);
      SwapGcd(g, a, b);
      SameSymmetric(b * Pow2(j), a, b, a);
      GcdTransfer(g, b, a, b * Pow2(j), a);
      SwapGcd(g, b * Pow2(j), a);
    }
  }

  /** The common power of two returns to the gcd of the odd parts. */
  lemma PowersBack(g: int, a: nat, b: nat, uz: nat, vz: nat, gz: nat)
    requires Odd(a) && Odd(b) && IsGcd(g, a, b) && gz == MinNat(uz, vz)
    ensures IsGcd(g * Pow2(gz), a * Pow2(uz), b * Pow2(vz))
  {
    hide IsGcd, Pow2;
    PowersApart(g, a, b, uz - gz, vz - gz);
    var x, y: nat := Scaled2(a, uz, gz), Scaled2(b, vz, gz);
    GcdScale(g, x, y, Pow2(gz));
  }

  /** x * 2^i with 2^j taken out. */
  ghost function Scaled2(x: nat, i: nat, j: nat): (r: nat)
    requires j <= i
    ensures r == x * Pow2(i - j) && r * Pow2(j) == x * Pow2(i)
  {
    Pow2Add(i - j, j);
    MulNonNeg(x, Pow2(i - j));
    SplitPower(x * Pow2(i), x, Pow2(i - j), Pow2(j));
    x * Pow2(i - j)
  }

  lemma SameSymmetric(a: int, b: int, c: int, e: int)
    requires SameDivisors(a, b, c, e)
    ensures SameDivisors(c, e, a, b)
  {
  }

  lemma SwapGcd(g: int, a: int, b: int)
    requires IsGcd(g, a, b)
    ensures IsGcd(g, b, a)
  {
  }

  lemma RemainderDivisors(u: nat, v: nat)
    requires v > 0
    ensures SameDivisors(u % v, v, u, v)
  {
    ReduceDivisors(u, v, u / v);
    assert u % v == u - (u / v) * v;
  }

  /** Two pairs with the same divisors as a third have the same as each other. */
  lemma FromSame(a: int, b: int, c: int, d: int, e: int, f: int)
    requires SameDivisors(a, b, e, f) && SameDivisors(a, b, c, d)
    ensures SameDivisors(c, d, e, f)
  {
  }

  lemma SwapDivisors(a: int, b: int, c: int, d: int)
    requires SameDivisors(a, b, c, d)
    ensures SameDivisors(b, a, c, d)
  {
  }

  /** The main loop of mpz_gcd on odd operands, with the single-limb shortcut. */
  method OddPartsGcd(u: nat, v: nat, limb: nat) returns (g: nat)
    requires u > 0 && v > 0 && Odd(u) && Odd(v) && limb >= 2
    ensures IsGcd(g, u, v)
  {
    hide IsGcd, Odd, SameDivisors, Pow2, LimbCount;
    var tu, tv := u % v, v;
    RemainderDivisors(u, v);
    SelfGcd(v);
    if tu == 0 {
      GcdTransfer(v, 0, v, u, v);
      return v;
    }
    while true
      invariant tu > 0 && tv > 0 && Odd(tv)
      invariant SameDivisors(tu, tv, u, v)
      decreases tu + tv
    {
      ghost var before := tu;
      var shift;
      tu, shift := MakeOdd(tu);
      OddDivisorsPower(tu, tv, shift);
      FromSame(before, tv, tu, tv, u, v);
      if tu == tv {
        SelfGcd(tu);
        GcdTransfer(tu, tu, tv, u, v);
        return tu;
      }
      if tu < tv {
        SwapDivisors(tu, tv, u, v);
        tu, tv := tv, tu;
      }
      if LimbCount(tv, limb) == 1 {
        RemainderDivisors(tu, tv);
        g := Gcd11(tu % tv, tv);
        GcdTransfer(g, tu % tv, tv, u, v);
        return g;
      }
      ReduceDivisors(tu, tv, 1);
      FromSame(tu, tv, tu - tv, tv, u, v);
      tu := tu - tv;
    }
  }
}
