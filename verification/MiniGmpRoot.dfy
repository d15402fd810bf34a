/**
 Integer roots by Newton's iteration: mpz_rootrem of libs/eosio.evm/external/mini-gmp/mini-gmp.c
 over mathematical integers.
 */
module MiniGmpRoot {
  import opened Products
  import opened PowersOfTwo
  import opened NumberTheory

  /** mpz_pow_ui. */
  function Power(x: int, k: nat): int {
    if k == 0 then 1 else x * Power(x, k - 1)
  }

  /** mpz_sizeinbase(y, 2). */
  function Bits(y: nat): (b: nat)
    ensures y < Pow2(b)
  {
    if y == 0 then 0 else 1 + Bits(y / 2)
  }

  /** x is the integer z-th root of the natural number y. */
  ghost predicate IsRoot(x: nat, y: nat, z: nat) {
    Power(x, z) <= y < Power(x + 1, z)
  }

  // ---------- powers ----------

  lemma {:induction false} PowerMonotone(a: nat, b: nat, k: nat)
    requires a <= b
    ensures 0 <= Power(a, k) <= Power(b, k)
  {
    if k == 0 {
    } else {
      PowerMonotone(a, b, k - 1);
      MulNonNeg(a, Power(a, k - 1));
      MulLe2(a, Power(a, k - 1), b, Power(b, k - 1));
    }
  }

  lemma {:induction false} PowerPositive(a: nat, k: nat)
    requires a >= 1
    ensures Power(a, k) >= 1
  {
    if k == 0 {
    } else {
      PowerPositive(a, k - 1);
      MulLe2(1, 1, a, Power(a, k - 1));
    }
  }

  /** The sign of a power of a negative number is that of its exponent's parity. */
  lemma {:induction false} PowerNegated(a: int, k: nat)
    ensures Power(-a, k) == if k % 2 == 0 then Power(a, k) else -Power(a, k)
  {
    if k == 0 {
    } else {
      PowerNegated(a, k - 1);
      assert (-a) * (-Power(a, k - 1)) == a * Power(a, k - 1);
      assert (-a) * Power(a, k - 1) == -(a * Power(a, k - 1));
    }
  }

  lemma {:induction false} PowerOfPow2(k: nat, z: nat)
    ensures Power(Pow2(k), z) == Pow2(k * z)
  {
    if z == 0 {
      assert k * z == 0;
    } else {
      PowerOfPow2(k, z - 1);
      assert k * z == k + k * (z - 1);
      MulNonNeg(k, z - 1);
      Pow2Add(k, k * (z - 1));
    }
  }

  lemma {:induction false} Pow2Monotone(a: nat, b: nat)
    requires a <= b
    ensures Pow2(a) <= Pow2(b)
  {
    if a >= b {
    } else {
      Pow2Monotone(a, b - 1);
    }
  }

  // ---------- Newton's step never falls below the root ----------

  /** z*a*u^(z-1) <= a^z + (z-1)*u^z: the inequality of weighted means, over the integers. */
  lemma {:induction false} MeanInequality(a: nat, u: nat, z: nat)
    requires z >= 1
    ensures z * (a * Power(u, z - 1)) <= Power(a, z) + (z - 1) * Power(u, z)
  {
    if z == 1 {
      assert Power(u, 0) == 1 && Power(a, 0) == 1;
    } else {
      MeanInequality(a, u, z - 1);
      var p := Power(u, z - 2);
      PowerMonotone(0, u, z - 2);
      MeanStep(a, u, z - 1, Power(a, z - 1), p);
    }
  }

  /** From exponent n to n+1: the difference of the two sides grows by n*p*(u-a)^2. */
  lemma MeanStep(a: nat, u: nat, n: nat, an: int, p: int)
    requires n >= 1 && p >= 0
    requires n * (a * p) <= an + (n - 1) * (u * p)
    ensures (n + 1) * (a * (u * p)) <= a * an + n * (u * (u * p))
  {
    var sq := (u - a) * (u - a);
    MulSquare(u - a);
    MulNonNeg(n, p);
    MulNonNeg(n * p, sq);
    MulLe(n * (a * p), an + (n - 1) * (u * p), a);
    var aap, aup, uup := a * (a * p), a * (u * p), u * (u * p);
    assert n * (a * p) * a == n * aap;
    assert (an + (n - 1) * (u * p)) * a == a * an + (n - 1) * aup;
    assert n * p * sq == n * uup - 2 * (n * aup) + n * aap by { SquareExpand(n, p, u, a); }
    assert (n + 1) * aup == n * aup + aup;
    assert (n - 1) * aup == n * aup - aup;
  }

  lemma MulSquare(x: int)
    ensures x * x >= 0
  {
    if x < 0 { MulNonNeg(-x, -x); assert (-x) * (-x) == x * x; } else { MulNonNeg(x, x); }
  }

  lemma SquareExpand(n: int, p: int, u: int, a: int)
    ensures n * p * ((u - a) * (u - a)) == n * (u * (u * p)) - 2 * (n * (a * (u * p))) + n * (a * (a * p))
  {
    assert (u - a) * (u - a) == u * u - 2 * (a * u) + a * a;
    assert n * p * (u * u) == n * (u * (u * p));
    assert n * p * (a * u) == n * (a * (u * p));
    assert n * p * (a * a) == n * (a * (a * p));
  }

  /** One Newton step on magnitudes: (y / u^(z-1) + u*(z-1)) / z. */
  function Next(y: nat, u: nat, z: nat): nat
    requires u >= 1 && z >= 1
  {
    PowerPositive(u, z - 1);
    MulNonNeg(u, z - 1);
    FloorDiv(FloorDiv(y, Power(u, z - 1)) + u * (z - 1), z)
  }

  lemma ScaledMean(a: int, u: int, z: int, p: int, y: int, w: int)
    requires p >= 1 && z * (a * p) <= y + (z - 1) * (u * p) && y < w * p + p
    ensures a * z <= w + u * (z - 1)
  {
    assert (z * a - (z - 1) * u) * p == z * (a * p) - (z - 1) * (u * p);
    assert (w + 1) * p == w * p + p;
    MulLtCancel(z * a - (z - 1) * u, w + 1, p);
  }

  /** Every a with a^z <= y stays below the next iterate. */
  lemma NewtonUpper(y: nat, u: nat, z: nat, a: nat)
    requires u >= 1 && z >= 1 && Power(a, z) <= y
    ensures a <= Next(y, u, z)
  {
    hide FloorDiv;
    var p := Power(u, z - 1);
    PowerPositive(u, z - 1);
    MeanInequality(a, u, z);
    assert Power(u, z) == u * p;
    ScaledMean(a, u, z, p, y, FloorDiv(y, p));
    MulNonNeg(u, z - 1);
    FloorDivAtLeast(a, z, FloorDiv(y, p) + u * (z - 1));
  }

  /** The iteration stops only at or below the root. */
  lemma NewtonStop(y: nat, u: nat, z: nat)
    requires u >= 1 && z >= 1 && Next(y, u, z) >= u
    ensures Power(u, z) <= y
  {
    hide FloorDiv;
    var p := Power(u, z - 1);
    PowerPositive(u, z - 1);
    MulNonNeg(u, z - 1);
    StopScalar(u, z, p, y, FloorDiv(y, p), Next(y, u, z));
  }

  lemma StopScalar(u: int, z: int, p: int, y: int, w: int, next: int)
    requires p >= 1 && z >= 1 && w * p <= y && next * z <= w + u * (z - 1) && u <= next
    ensures u * p <= y
  {
    MulLe(u, next, z);
    assert u * z == u * (z - 1) + u;
    MulLe(u, w, p);
  }

  /** Every a with a^z <= y is at most t. */
  ghost predicate AtLeastRoot(t: nat, y: nat, z: nat) {
    forall a: nat | Power(a, z) <= y :: a <= t
  }

  lemma NewtonKeepsUpper(y: nat, u: nat, z: nat)
    requires u >= 1 && z >= 1
    ensures AtLeastRoot(Next(y, u, z), y, z)
  {
    forall a: nat | Power(a, z) <= y
      ensures a <= Next(y, u, z)
    {
      NewtonUpper(y, u, z, a);
    }
  }

  lemma RootFound(u: nat, y: nat, z: nat)
    requires AtLeastRoot(u, y, z) && Power(u, z) <= y
    ensures IsRoot(u, y, z)
  {
  }

  /** The starting point 2^(bits/z + 1) is above the root. */
  lemma StartAbove(y: nat, z: nat)
    requires z >= 1
    ensures AtLeastRoot(Pow2(Bits(y) / z + 1), y, z)
  {
    hide Power, Pow2;
    var k := Bits(y) / z + 1;
    PowerOfPow2(k, z);
    AboveMultiple(Bits(y), z);
    Pow2Monotone(Bits(y), k * z);
    forall a: nat | Power(a, z) <= y
      ensures a <= Pow2(k)
    {
      if a > Pow2(k) { PowerMonotone(Pow2(k), a, z); }
    }
  }

  lemma AboveMultiple(b: nat, z: nat)
    requires z >= 1
    ensures b <= (b / z + 1) * z
  {
    assert (b / z + 1) * z == b / z * z + z;
  }

  lemma OneBelow(t: nat, y: nat, z: nat)
    requires AtLeastRoot(t, y, z) && y >= 1
    ensures t >= 1
  {
    PowerOne(z);
  }

  lemma {:induction false} PowerOne(z: nat)
    ensures Power(1, z) == 1
  {
    if z == 0 {
    } else {
      PowerOne(z - 1);
    }
  }

  // ---------- mpz_rootrem ----------

  datatype RootResult =
    | Died(message: string)
    | Root(x: int, r: int)

  function Signed(negative: bool, magnitude: int): int {
    if negative then -magnitude else magnitude
  }

  /** A signed step is the step on magnitudes with the sign put back (z is odd for a negative y). */
  lemma SignedStep(y: nat, u: nat, z: nat, negative: bool)
    requires u >= 1 && z >= 1 && y >= 1 && (negative ==> z % 2 == 1)
    ensures var x := Signed(negative, u);
            var p := Power(x, z - 1);
            p != 0 && TDiv(TDiv(Signed(negative, y), p) + x * (z - 1), z) == Signed(negative, Next(y, u, z))
    ensures Abs(Signed(negative, Next(y, u, z))) == Next(y, u, z)
  {
    hide Power, TDiv, FloorDiv;
    var p := Power(u, z - 1);
    PowerPositive(u, z - 1);
    PowerNegated(u, z - 1);
    TruncatedSign(y, p, negative);
    MulNonNeg(u, z - 1);
    SignedProduct(u, z - 1, negative);
    TruncatedSign(FloorDiv(y, p) + u * (z - 1), z, negative);
  }

  lemma TruncatedSign(m: nat, p: nat, negative: bool)
    requires p >= 1
    ensures TDiv(Signed(negative, m), p) == Signed(negative, FloorDiv(m, p))
  {
  }

  lemma SignedProduct(u: int, k: int, negative: bool)
    ensures Signed(negative, u) * k == Signed(negative, u * k)
  {
    var minus := -u;
    assert minus * k == -(u * k);
  }

  /** The simplified loop for square roots computes the same step. */
  lemma SquareStep(y: nat, u: nat)
    requires u >= 1
    ensures Next(y, u, 2) == (y / u + u) / 2
  {
    assert Power(u, 1) == u * Power(u, 0);
  }

  /** The loop for z = 2: strictly decreasing until the root is met. */
  method SquareLoop(y: nat, start: nat) returns (u: nat)
    requires y >= 2 && start >= 1 && AtLeastRoot(start, y, 2)
    ensures u >= 1 && IsRoot(u, y, 2)
  {
    hide IsRoot, AtLeastRoot, Power, Next;
    var t := start;
    u := t;
    while true
      invariant t >= 1 && AtLeastRoot(t, y, 2)
      decreases t
    {
      u := t;
      SquareStep(y, u);
      NewtonKeepsUpper(y, u, 2);
      t := (y / u + u) / 2;
      OneBelow(t, y, 2);
      if t >= u { break; }
    }
    NewtonStop(y, u, 2);
    RootFound(u, y, 2);
  }

  /** The loop for general z, on a possibly negative iterate whose magnitude strictly decreases. */
  method NewtonLoop(y: int, z: nat, start: int) returns (u: int)
    requires z >= 1 && Abs(y) >= 2 && (y < 0 ==> z % 2 == 1)
    requires start == Signed(y < 0, Abs(start)) && Abs(start) >= 1 && AtLeastRoot(Abs(start), Abs(y), z)
    ensures Abs(u) >= 1 && u == Signed(y < 0, Abs(u)) && IsRoot(Abs(u), Abs(y), z)
  {
    hide IsRoot, AtLeastRoot, Power, Next, TDiv;
    var t := start;
    u := t;
    ghost var m := Abs(y);
    while true
      invariant Abs(t) >= 1 && t == Signed(y < 0, Abs(t)) && AtLeastRoot(Abs(t), m, z)
      decreases Abs(t)
    {
      u := t;
      SignedStep(m, Abs(u), z, y < 0);
      NewtonKeepsUpper(m, Abs(u), z);
      t := TDiv(TDiv(y, Power(u, z - 1)) + u * (z - 1), z);
      OneBelow(Abs(t), m, z);
      if Abs(t) >= Abs(u) { break; }
    }
    NewtonStop(m, Abs(u), z);
    RootFound(Abs(u), m, z);
  }

  /** mpz_rootrem: the integer root and the remainder, or the two fatal errors. */
  method RootRem(y: int, z: nat) returns (res: RootResult)
    ensures res.Died? <==> z == 0 || (y < 0 && z % 2 == 0)
    ensures res.Root? ==> IsRoot(Abs(res.x), Abs(y), z) && res.r == y - Power(res.x, z)
    ensures res.Root? ==> (y < 0 ==> res.x < 0) && (y >= 0 ==> res.x >= 0)
    ensures res.Root? ==> Abs(res.r) == Abs(y) - Power(Abs(res.x), z)
  {
    hide Pow2, IsRoot, AtLeastRoot, Power, Next, TDiv;
    var negative := y < 0;
    if negative && z % 2 == 0 {
      return Died("mpz_rootrem: Negative argument, with even root.");
    }
    if z == 0 {
      return Died("mpz_rootrem: Zeroth root.");
    }
    if Abs(y) <= 1 {
      SmallRoot(y, z);
      RemainderMagnitude(y, y, z);
      return Root(y, 0);
    }
    var u := LargeRoot(y, z);
    RemainderMagnitude(y, u, z);
    res := Root(u, y - Power(u, z));
  }

  /** Newton's iteration from a power of two above the root. */
  method LargeRoot(y: int, z: nat) returns (u: int)
    requires z >= 1 && Abs(y) > 1 && (y < 0 ==> z % 2 == 1)
    ensures IsRoot(Abs(u), Abs(y), z) && (y < 0 ==> u < 0) && (y >= 0 ==> u >= 0)
  {
    hide Pow2, IsRoot, AtLeastRoot, Power, Next, TDiv, Bits;
    var t: int := Pow2(Bits(Abs(y)) / z + 1);
    StartAbove(Abs(y), z);
    if z == 2 {
      u := SquareLoop(y, t);
    } else {
      if y < 0 { t := -t; }
      u := NewtonLoop(y, z, t);
    }
  }

  lemma RemainderMagnitude(y: int, x: int, z: nat)
    requires z >= 1 && (y < 0 ==> z % 2 == 1) && IsRoot(Abs(x), Abs(y), z)
    requires (y < 0 ==> x < 0) && (y >= 0 ==> x >= 0)
    ensures Abs(y - Power(x, z)) == Abs(y) - Power(Abs(x), z)
  {
    PowerNegated(Abs(x), z);
  }

  lemma SmallRoot(y: int, z: nat)
    requires z >= 1 && Abs(y) <= 1 && (y < 0 ==> z % 2 == 1)
    ensures Power(y, z) == y && IsRoot(Abs(y), Abs(y), z)
  {
    PowerOne(z);
    PowerNegated(1, z);
    PowerZero(z);
    PowerTwo(z);
  }

  lemma PowerZero(z: nat)
    requires z >= 1
    ensures Power(0, z) == 0
  {
  }

  lemma PowerTwo(z: nat)
    requires z >= 1
    ensures Power(2, z) >= 2
  {
    PowerPositive(2, z - 1);
  }
}
