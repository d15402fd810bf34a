/**
 The word reciprocals of libs/eosio.evm/external/intx/int128.hpp: a table lookup refined by
 three Newton steps and one correction, all in wrapping 64-bit arithmetic.
 */
module Reciprocal {
  import opened MachineWord
  import opened Products
  import opened Uint128

  const P11: int := 0x800
  const P13: int := 0x2000
  const P24: int := 0x100_0000
  const P31: int := 0x8000_0000
  const P39: int := 0x80_0000_0000
  const P40: int := 0x100_0000_0000
  const P43: int := 0x800_0000_0000
  const P47: int := 0x8000_0000_0000
  const P50: int := 0x4_0000_0000_0000
  const P55: int := 0x80_0000_0000_0000
  const P60: int := 0x1000_0000_0000_0000
  const P65: int := 0x2_0000_0000_0000_0000
  const P73: int := 0x200_0000_0000_0000_0000
  const P96: int := 0x1_0000_0000_0000_0000_0000_0000
  const P97: int := 0x2_0000_0000_0000_0000_0000_0000

  /** d has its top bit set. */
  predicate Normalized(d: u64) {
    HALF <= d
  }

  /** v = floor((2^128 - 1) / d) - 2^64, stated by its defining inequalities. */
  predicate IsReciprocal(d: u64, v: u64) {
    (B + v) * d <= SQ - 1 < (B + v + 1) * d
  }

  // ---------- the four approximations over mathematical integers ----------

  function V0(d9: int): int
    requires d9 > 0
  {
    0x7fd00 / d9
  }

  function V1(v0: int, d40: int): int {
    v0 * P11 - (v0 * v0 * d40) / P40 - 1
  }

  function V2(v1: int, d40: int): int {
    v1 * P13 + (v1 * (P60 - v1 * d40)) / P47
  }

  function V3(v2: int, e: int): int {
    v2 * P31 + (v2 * e) / P65
  }

  lemma TableBounds(d9: int)
    requires 256 <= d9 < 512
    ensures 1024 <= V0(d9) <= 2045
    ensures 0x7fd00 - (d9 - 1) <= V0(d9) * d9 <= 0x7fd00
  {
    var v0 := V0(d9);
    assert v0 * d9 <= 0x7fd00 < v0 * d9 + d9;
    if v0 > 2045 { MulLe2(2046, 256, v0, d9); }
    if v0 < 1024 {
      MulLe2(v0 + 1, d9, 1024, 511);
    }
  }

  /** Error of the table value: |2^50 - v0*d40| <= 5 * 2^39. */
  lemma Error0(d9: int, v0: int, d40: int)
    requires 256 <= d9 < 512 && v0 == V0(d9)
    requires d9 * P31 + 1 <= d40 <= (d9 + 1) * P31
    ensures -5 * P39 <= P50 - v0 * d40 <= 5 * P39
    ensures 1024 <= v0 <= 2045
  {
    TableBounds(d9);
    MulLe(d9 * P31, d40, v0);
    MulLe(d40, (d9 + 1) * P31, v0);
    assert d9 * P31 * v0 == (v0 * d9) * P31;
    assert (d9 + 1) * P31 * v0 == (v0 * d9) * P31 + v0 * P31;
  }

  lemma SquareBound(x: int, m: int)
    requires -m <= x <= m
    ensures 0 <= x * x <= m * m
  {
    if x >= 0 { MulLe2(x, x, m, m); MulNonNeg(x, x); } else { MulLe2(-x, -x, m, m); MulNonNeg(-x, -x); assert (-x) * (-x) == x * x; }
  }

  /** With x*d = n - e, one Newton step y = floor(x*(n + e)/m) has m*y*d = n^2 - e^2 - rem*d. */
  lemma NewtonStep(m: int, n: int, x: int, d: int, e: int, y: int, rem: int)
    requires m * y == x * (n + e) - rem
    requires x * d == n - e
    ensures m * (y * d) == n * n - e * e - rem * d
  {
    assert m * y * d == (x * (n + e) - rem) * d;
    assert x * (n + e) * d == (x * d) * (n + e);
    assert (n - e) * (n + e) == n * n - e * e;
  }

  /** First Newton step: 0 < 2^60 - v1*d40 < 2^43 and v1 fits 21 bits. */
  lemma Error1(v0: int, d40: int, v1: int)
    requires 1024 <= v0 <= 2045 && P39 < d40 <= P40
    requires -5 * P39 <= P50 - v0 * d40 <= 5 * P39
    requires v1 == V1(v0, d40)
    ensures 0 < P60 - v1 * d40 < P43
    ensures 0 < v1 < 0x20_0000
  {
    var e0 := P50 - v0 * d40;
    var y := v1 + 1;
    var rem := P40 * y - v0 * (P50 + e0);
    assert 0 <= rem < P40 by { Step1Remainder(v0, d40, e0, v1); }
    NewtonStep(P40, P50, v0, d40, e0, y, -rem);
    SquareBound(e0, 5 * P39);
    MulNonNeg(rem, d40);
    MulLe(rem, P40 - 1, d40);
    assert -rem * d40 == -(rem * d40);
    assert y * d40 == v1 * d40 + d40;
    Below(v1, d40, P60, 0x20_0000, P39);
    if v1 <= 0 { MulLe(v1, 0, d40); }
  }

  lemma Step1Remainder(v0: int, d40: int, e0: int, v1: int)
    requires e0 == P50 - v0 * d40 && v1 == V1(v0, d40)
    ensures 0 <= P40 * (v1 + 1) - v0 * (P50 + e0) < P40
  {
    assert v0 * v0 * d40 == v0 * (P50 - e0);
    assert v0 * (P50 - e0) + v0 * (P50 + e0) == v0 * (2 * P50);
  }

  /** x*d < c*l with d >= l bounds x by c. */
  lemma Below(x: int, d: int, n: int, c: int, l: int)
    requires x * d < n && n <= c * l && l <= d && 0 <= c && 0 <= l
    ensures x < c
  {
    if c <= x { MulLe2(c, l, x, d); }
  }

  lemma Error2Linear(v2: int, w: int, ee: int, rd: int, d40: int, d: int, eps: int, ve: int, v2d: int)
    requires P47 * w == P60 * P60 - ee - rd
    requires 0 <= ee <= P43 * P43 && 0 <= rd <= P47 * d40
    requires d == P24 * d40 - eps && 1 <= eps <= P24 && P39 < d40 <= P40
    requires v2 <= ve <= P24 * v2 && 0 < v2 < 0x4_0000_0000
    requires v2d == P24 * w - ve
    ensures 0 < P97 - v2d < E2MAX + d
  {
  }

  const E2MAX: int := 0x8800_0000_0000_0000  // 2^63 + 2^59

  /** Second Newton step, measured against the full divisor d = 2^24*d40 - eps. */
  lemma Error2(v1: int, d40: int, v2: int, d: int, eps: int)
    requires P39 < d40 <= P40 && 0 < v1 < 0x20_0000
    requires 0 < P60 - v1 * d40 < P43
    requires v2 == V2(v1, d40)
    requires d == P24 * d40 - eps && 1 <= eps <= P24
    ensures 0 < v2 < 0x4_0000_0000
    ensures 0 < P97 - v2 * d < E2MAX + d
  {
    var e1 := P60 - v1 * d40;
    var f := v1 * e1;
    MulNonNeg(v1, e1);
    var rem := f % P47;
    assert v1 * (P60 + e1) == v1 * P60 + f;
    NewtonStep(P47, P60, v1, d40, e1, v2, rem);
    SquareBound(e1, P43);
    MulNonNeg(e1, e1);
    MulNonNeg(rem, d40);
    MulLe(rem, P47, d40);
    Below(v2, d40, P73, 0x4_0000_0000, P39);
    MulLe(1, eps, v2);
    MulLe(eps, P24, v2);
    assert d * v2 == (P24 * d40) * v2 - eps * v2;
    Error2Linear(v2, v2 * d40, e1 * e1, rem * d40, d40, d, eps, v2 * eps, v2 * d);
  }

  lemma QuadraticBound(e2: int, d: int)
    requires 0 <= e2 <= E2MAX + d && HALF <= d < B
    ensures e2 * e2 + (0x4_0000_0000 + 2 * P65) * d <= 4 * P65 * d
  {
    SquareBound(e2, E2MAX + d);
    var dd := d * d;
    assert dd <= (B + HALF) * d - HALF * B by {
      MulNonNeg(d - HALF, B - d);
      assert (d - HALF) * (B - d) == (B + HALF) * d - dd - HALF * B;
    }
    assert (E2MAX + d) * (E2MAX + d) == E2MAX * E2MAX + 2 * E2MAX * d + dd;
    QuadraticLinear(e2 * e2, dd, d);
  }

  lemma QuadraticLinear(ee: int, dd: int, d: int)
    requires ee <= E2MAX * E2MAX + 2 * E2MAX * d + dd
    requires dd <= (B + HALF) * d - HALF * B && HALF <= d < B
    ensures ee + (0x4_0000_0000 + 2 * P65) * d <= 4 * P65 * d
  {
  }

  /** Third step: the error of the 65-bit approximation is positive and at most 2*d. */
  lemma Error3(d: int, v2: int, v: int)
    requires HALF <= d < B && 0 < v2 < 0x4_0000_0000
    requires 0 < P97 - v2 * d < E2MAX + d
    requires v == V3(v2, (P97 - v2 * d) / 2)
    ensures 0 < SQ - v * d <= 2 * d
  {
    hide V3;
    var e2 := P97 - v2 * d;
    var r := ThirdStep(v2, e2, v);
    NewtonStep(2 * P65, P97, v2, d, e2, v, r);
    MulNonNeg(r, d);
    MulLe(r, 0x4_0000_0000 + 2 * P65, d);
    QuadraticBound(e2, d);
    PositiveSquare(e2);
    Error3Linear(v * d, e2 * e2, r * d, d);
  }

  /** The third step is a Newton step from v2 with error e2; r is what its two floors lose. */
  lemma ThirdStep(v2: int, e2: int, v: int) returns (r: int)
    requires 0 < v2 < 0x4_0000_0000 && v == V3(v2, e2 / 2)
    ensures 2 * P65 * v == v2 * (P97 + e2) - r
    ensures 0 <= r <= 0x4_0000_0000 + 2 * P65
  {
    var e, b := e2 / 2, e2 % 2;
    var f := v2 * e;
    r := v2 * b + 2 * (f % P65);
    HalvedProduct(v2, e2, e, b);
    assert v == v2 * P31 + f / P65;
    assert v2 * (P97 + e2) == v2 * P97 + v2 * e2;
  }

  lemma HalvedProduct(x: int, y: int, h: int, b: int)
    requires y == 2 * h + b && 0 <= b <= 1 && 0 <= x
    ensures x * y == 2 * (x * h) + x * b
    ensures 0 <= x * b <= x
  {
  }

  lemma PositiveSquare(x: int)
    requires 1 <= x
    ensures 1 <= x * x
  {
    MulLe2(1, 1, x, x);
  }

  lemma Error3Linear(vd: int, ee: int, rd: int, d: int)
    requires 2 * P65 * vd == P97 * P97 - ee - rd
    requires 1 <= ee && 0 <= rd <= (0x4_0000_0000 + 2 * P65) * d
    requires ee + (0x4_0000_0000 + 2 * P65) * d <= 4 * P65 * d
    ensures 0 < SQ - vd <= 2 * d
  {
  }

  // ---------- the wrapping computation ----------

  /** reciprocal_2by1, step by step in 64-bit words. */
  function Reciprocal2by1(d: u64): u64 {
    var d9 := d / P55 % 256;
    var v0 := V0(256 + d9);
    var d40 := Wrap(d / P24 + 1);
    var v1 := Refine1(v0, d40);
    var v2 := Refine2(v1, d40);
    var v3 := Refine3(v2, d);
    Correct(v3, d)
  }

  function Refine1(v0: u64, d40: u64): u64 {
    Wrap(Wrap(v0 * P11) - Wrap(v0 * v0 * d40) / P40 - 1)
  }

  function Refine2(v1: u64, d40: u64): u64 {
    Wrap(Wrap(v1 * P13) + Wrap(v1 * Wrap(P60 - Wrap(v1 * d40))) / P47)
  }

  function Refine3(v2: u64, d: u64): u64 {
    var d0 := d % 2;
    var d63 := d / 2 + d0;
    var e := Wrap(v2 / 2 * d0 - v2 * d63);
    Wrap(Wrap(v2 * P31) + Umul(v2, e).hi / 2)
  }

  function Correct(v3: u64, d: u64): u64 {
    var m := Add(Umul(v3, d), U128(0, d));
    var v3a := Wrap(m.hi + d);
    Wrap(v3 - v3a)
  }

  lemma Refine2Exact(v1: u64, d40: u64)
    requires P39 < d40 <= P40 && 0 < v1 < 0x20_0000
    requires 0 < P60 - v1 * d40 < P43
    ensures Refine2(v1, d40) == V2(v1, d40)
  {
    var e1 := P60 - v1 * d40;
    MulNonNeg(v1, e1);
    MulLe2(v1, e1, 0x1f_ffff, P43);
  }

  lemma Refine3Exact(v2: u64, d: u64)
    requires Normalized(d) && 0 < v2 < 0x4_0000_0000
    requires 0 < P97 - v2 * d < E2MAX + d
    requires 0 < SQ - V3(v2, (P97 - v2 * d) / 2) * d <= 2 * d
    ensures Refine3(v2, d) == V3(v2, (P97 - v2 * d) / 2) - B
  {
    hide Umul;
    var d0 := d % 2;
    var d63 := d / 2 + d0;
    var e := (P97 - v2 * d) / 2;
    assert v2 / 2 * d0 - v2 * d63 + P96 == e by { HalfError(v2, d); }
    WrapShift(v2 / 2 * d0 - v2 * d63, 0x1_0000_0000);
    assert Wrap(v2 / 2 * d0 - v2 * d63) == e;
    var p := Umul(v2, e);
    assert p.Value() == v2 * e;
    ThirdInRange(V3(v2, e), d);
    ThirdWraps(v2, p, V3(v2, e));
  }

  lemma ThirdWraps(v2: u64, p: U128, v: int)
    requires v == v2 * P31 + p.Value() / P65 && B <= v < 2 * B
    requires v2 < 0x4_0000_0000
    ensures Wrap(Wrap(v2 * P31) + p.hi / 2) == v - B
  {
    assert p.Value() / P65 == p.hi / 2;
    var k := v2 * P31 / B;
    assert v2 * P31 == Wrap(v2 * P31) + k * B;
    WrapShift(Wrap(v2 * P31) + p.hi / 2, k);
  }

  lemma HalfError(v2: int, d: int)
    ensures v2 / 2 * (d % 2) - v2 * (d / 2 + d % 2) + P96 == (P97 - v2 * d) / 2
  {
    var h := d / 2;
    if d % 2 == 0 {
      assert v2 * d == 2 * (v2 * h);
    } else {
      assert v2 * d == 2 * (v2 * h) + v2;
    }
  }

  lemma ThirdInRange(v: int, d: int)
    requires HALF <= d < B
    requires 0 < SQ - v * d <= 2 * d
    ensures B <= v < 2 * B
  {
    if v < B { MulLe(v, B - 1, d); }
    if 2 * B <= v { MulLe2(2 * B, HALF, v, d); }
  }

  /** The last step adds one exactly when the remaining error exceeds d. */
  lemma CorrectLinear(v3: u64, d: u64, w: int)
    requires Normalized(d) && 0 <= w < SQ - d
    requires 0 < SQ - (B * d + w) <= 2 * d
    requires SQ - (B * d + w) > d ==> v3 + 1 < B
    ensures Wrap(v3 - Wrap((w + d) / B + d)) == if SQ - (B * d + w) > d then v3 + 1 else v3
  {
    if SQ - (B * d + w) > d {
      assert (w + d) / B + d == B - 1;
    } else {
      assert (w + d) / B + d == B;
    }
  }

  lemma CorrectExact(v3: u64, d: u64)
    requires Normalized(d)
    requires 0 < SQ - (B + v3) * d <= 2 * d
    ensures IsReciprocal(d, Correct(v3, d))
  {
    var w := v3 * d;
    MulNonNeg(v3, d);
    assert (B + v3) * d == B * d + w;
    assert w + d < SQ by { MulLe2(v3 + 1, d, B, B - 1); assert (v3 + 1) * d == w + d; }
    var r := if SQ - (B * d + w) > d then v3 + 1 else v3;
    NearestIsReciprocal(v3, d, r);
    CorrectLinear(v3, d, w);
    CorrectValue(v3, d, w);
  }

  lemma CorrectValue(v3: u64, d: u64, w: int)
    requires w == v3 * d && w + d < SQ
    ensures Correct(v3, d) == Wrap(v3 - Wrap((w + d) / B + d))
  {
    HighWord(Umul(v3, d), d, w);
  }

  lemma NearestIsReciprocal(v3: u64, d: u64, r: int)
    requires Normalized(d)
    requires 0 < SQ - (B + v3) * d <= 2 * d
    requires r == if SQ - (B + v3) * d > d then v3 + 1 else v3
    ensures 0 <= r < B && IsReciprocal(d, r)
  {
    assert (B + v3 + 1) * d == (B + v3) * d + d;
    assert (B + v3 + 2) * d == (B + v3) * d + 2 * d;
    if r == v3 + 1 { ThirdInRange(B + r, d); }
  }

  lemma HighWord(p: U128, d: u64, w: int)
    requires p.Value() == w && w + d < SQ
    ensures Add(p, U128(0, d)).hi == (w + d) / B
  {
    var m := AddWithCarry(p, U128(0, d));
    ValueBounds(m.0);
  }

  /** The leading 9 and 40 bits of a normalized divisor. */
  lemma LeadingBits(d: u64)
    requires Normalized(d)
    ensures var d9 := d / P55; var d40 := d / P24 + 1;
            && 256 <= d9 < 512 && d9 % 256 + 256 == d9
            && P39 < d40 <= P40 && Wrap(d40) == d40
            && d9 * P31 + 1 <= d40 <= (d9 + 1) * P31
            && 1 <= P24 * d40 - d <= P24
  {
    var t := d / P24;
    assert t / P31 == d / P55;
  }

  lemma V1Wraps(v0: u64, d40: u64)
    requires 1024 <= v0 <= 2045 && d40 <= P40
    requires 0 < V1(v0, d40) < 0x20_0000
    ensures Refine1(v0, d40) == V1(v0, d40)
  {
    MulLe2(v0, v0, 2045, 2045);
    MulNonNeg(v0, v0);
    MulNonNeg(v0 * v0, d40);
    MulLe2(v0 * v0, d40, 2045 * 2045, P40);
  }

  /** The reciprocal word is floor((2^128 - 1)/d) - 2^64 for every normalized divisor. */
  lemma Reciprocal2by1Correct(d: u64)
    requires Normalized(d)
    ensures IsReciprocal(d, Reciprocal2by1(d))
    ensures Reciprocal2by1(d) == (SQ - 1) / d - B
  {
    var v1, d40 := FirstSteps(d);
    var v2 := V2(v1, d40);
    Error2(v1, d40, v2, d, P24 * d40 - d);
    Refine2Exact(v1, d40);
    LastSteps(v2, d);
    ReciprocalUnique(d, Correct(Refine3(v2, d), d));
  }

  lemma FirstSteps(d: u64) returns (v1: u64, d40: u64)
    requires Normalized(d)
    ensures P39 < d40 <= P40 && 1 <= P24 * d40 - d <= P24
    ensures 0 < v1 < 0x20_0000 && 0 < P60 - v1 * d40 < P43
    ensures Reciprocal2by1(d) == Correct(Refine3(Refine2(v1, d40), d), d)
  {
    hide Refine1, Refine2, Refine3, Correct;
    LeadingBits(d);
    d40 := d / P24 + 1;
    var v0 := V0(d / P55);
    Error0(d / P55, v0, d40);
    Error1(v0, d40, V1(v0, d40));
    v1 := V1(v0, d40);
    V1Wraps(v0, d40);
  }

  lemma LastSteps(v2: u64, d: u64)
    requires Normalized(d) && 0 < v2 < 0x4_0000_0000
    requires 0 < P97 - v2 * d < E2MAX + d
    ensures IsReciprocal(d, Correct(Refine3(v2, d), d))
  {
    hide Correct, Refine3, V3, IsReciprocal;
    var v := V3(v2, (P97 - v2 * d) / 2);
    Error3(d, v2, v);
    Refine3Exact(v2, d);
    ThirdInRange(v, d);
    CorrectExact(v - B, d);
  }

  lemma ReciprocalUnique(d: u64, v: u64)
    requires Normalized(d) && IsReciprocal(d, v)
    ensures v == (SQ - 1) / d - B
  {
    assert (B + v + 1) * d == (B + v) * d + d;
    DivModUnique(SQ - 1, d, B + v, SQ - 1 - (B + v) * d);
  }
}
