/**
 Division of two words by one and of three words by two with a precomputed reciprocal
 (libs/eosio.evm/external/intx/int128.hpp).
 */
module WordDivision {
  import opened MachineWord
  import opened Products
  import opened Uint128
  import opened Reciprocal

  /** v = floor((2^192 - 1) / d) - 2^64 for a two-word divisor. */
  predicate IsReciprocal3by2(d: U128, v: u64) {
    (B + v) * d.Value() <= B * SQ - 1 < (B + v + 1) * d.Value()
  }

  lemma Reciprocal3by2Unique(d: U128, v: u64)
    requires Normalized(d.hi) && IsReciprocal3by2(d, v)
    ensures v == (B * SQ - 1) / d.Value() - B
  {
    var n := d.Value();
    assert (B + v + 1) * n == (B + v) * n + n;
    DivModUnique(B * SQ - 1, n, B + v, B * SQ - 1 - (B + v) * n);
  }

  // ---------- reciprocal_3by2 ----------

  /** The wrapped product of the divisor's high word with its reciprocal. */
  lemma FirstProduct(h: u64, v: u64)
    requires Normalized(h) && IsReciprocal(h, v)
    ensures (B + v) * h == SQ - B + Wrap(h * v) && B - h <= Wrap(h * v)
  {
    var w := h * v;
    assert (B + v) * h == B * h + w;
    assert (B + v + 1) * h == (B + v) * h + h;
    var x := w - (SQ - B - B * h);
    assert w == x + (B - 1 - h) * B;
    WrapShift(x, B - 1 - h);
  }

  /** Taking k off the reciprocal after the low word is added keeps it a 64-bit word. */
  lemma StageOne(h: u64, lo: u64, v: u64, p: u64, k: nat)
    requires Normalized(h) && k <= 2
    requires (B + v) * h == SQ - B + p
    requires B - h <= p + lo - k * h < B
    ensures 0 <= v - k
    ensures (B + (v - k)) * h + lo == SQ - B + (p + lo - k * h)
  {
    assert (B + (v - k)) * h == (B + v) * h - k * h;
    assert (B + (v - k) + 1) * h == (B + v) * h - k * h + h;
    if v - k < 0 { MulLe2(B + (v - k) + 1, h, B, B - 1); }
  }

  lemma SplitProduct(d: U128, v: u64, p: int)
    requires (B + v) * d.hi + d.lo == SQ - B + p
    ensures (B + v) * d.Value() == B * SQ - SQ + p * B + v * d.lo
  {
    var w := (B + v) * d.hi;
    assert (B + v) * (d.hi * B) == w * B;
    assert (B + v) * d.lo == B * d.lo + v * d.lo;
  }

  /** Taking k more off: the result is the reciprocal as soon as its product drops below 2^192. */
  lemma StageTwo(d: U128, v: u64, x: int, k: nat)
    requires k <= 2
    requires (B + v) * d.Value() == B * SQ + x
    requires x - k * d.Value() < 0 <= x - k * d.Value() + d.Value()
    ensures 0 <= v - k < B && IsReciprocal3by2(d, v - k)
  {
    ValueBounds(d);
    var n := d.Value();
    assert (B + (v - k)) * n == (B + v) * n - k * n;
    assert (B + (v - k) + 1) * n == (B + v) * n - k * n + n;
    if v - k < 0 { MulLe(B + (v - k) + 1, B, n); }
  }

  /** First correction: the low divisor word is added and at most two divisors taken off. */
  method DropLow(h: u64, lo: u64, v: u64, p: u64) returns (v': u64, p': u64, ghost k: nat)
    requires Normalized(h) && B - h <= p
    ensures k <= 2 && v' == Wrap(v - k)
    ensures p' == p + lo - k * h && B - h <= p'
  {
    v', p', k := v, Wrap(p + lo), 0;
    if p' < lo {
      v', k := Wrap(v' - 1), 1;
      if p' >= h {
        v', k := Wrap(v' - 1), 2;
        p' := Wrap(p' - h);
      }
      p' := Wrap(p' - h);
    }
  }

  /** Second correction: the high word of v * d.lo is added and at most two units taken off. */
  method DropCarry(d: U128, v: u64, p: u64, t: U128) returns (v': u64, ghost k: nat)
    requires Normalized(d.hi) && B - d.hi <= p
    ensures k <= 2 && v' == Wrap(v - k)
    ensures var x := (p + t.hi) * B + t.lo - SQ - k * d.Value();
            x < 0 <= x + d.Value()
  {
    v', k := v, 0;
    var p' := Wrap(p + t.hi);
    if p' < t.hi {
      v', k := Wrap(v' - 1), 1;
      if !Less(U128(p', t.lo), d) {
        v', k := Wrap(v' - 1), 2;
      }
    }
  }

  method Reciprocal3by2(d: U128) returns (v: u64)
    requires Normalized(d.hi)
    ensures IsReciprocal3by2(d, v)
    ensures v == (B * SQ - 1) / d.Value() - B
  {
    hide Umul, Reciprocal2by1, IsReciprocal3by2;
    v := Reciprocal2by1(d.hi);
    Reciprocal2by1Correct(d.hi);
    var p := Wrap(d.hi * v);
    FirstProduct(d.hi, v);
    ghost var v0, p0 := v, p;
    ghost var k;
    v, p, k := DropLow(d.hi, d.lo, v, p);
    StageOne(d.hi, d.lo, v0, p0, k);
    SplitProduct(d, v, p);
    var t := Umul(v, d.lo);
    v0 := v;
    v, k := DropCarry(d, v, p, t);
    StageTwo(d, v0, (p + t.hi) * B + t.lo - SQ, k);
    Reciprocal3by2Unique(d, v);
  }

  // ---------- udivrem_2by1 ----------

  /** The candidate remainder after q1 + 1 subtractions, scaled by the word size. */
  lemma Candidate2by1(u1: int, u0: int, d: int, v: int, q1: int, q0: int)
    requires v * u1 + u0 == q1 * B + q0
    ensures B * (u1 * B + u0 - (q1 + 1) * d) == u1 * (SQ - v * d) + u0 * (B - d) + q0 * d - d * B
  {
    var w := q1 * B;
    assert w * d == (v * u1 + u0 - q0) * d;
    assert w * d == v * u1 * d + u0 * d - q0 * d;
    assert B * ((q1 + 1) * d) == w * d + B * d;
  }

  /** The two corrections of udivrem_2by1 suffice: the candidate misses by at most one either way. */
  lemma CandidateBounds2by1(u: U128, d: u64, v: u64, q1: int, q0: int)
    requires Normalized(d) && u.hi < d && IsReciprocal(d, v)
    requires (B + v) * u.hi + u.lo == q1 * B + q0 && 0 <= q0 < B
    ensures var r := u.Value() - (q1 + 1) * d;
            0 <= r + d && q0 - B < r && (r < B - d || r < q0)
  {
    var k := SQ - (B + v) * d;
    Candidate2by1(u.hi, u.lo, d, B + v, q1, q0);
    assert (B + v + 1) * d == (B + v) * d + d;
    MulNonNeg(u.hi, k);
    MulLe2(u.hi, k, d - 1, d);
    assert (d - 1) * d == d * d - d;
    MulNonNeg(u.lo, B - d);
    MulLe(u.lo, B - 1, B - d);
    Bounds2by1(d, q0, u.Value() - (q1 + 1) * d, u.hi * k, u.lo * (B - d));
  }

  lemma Bounds2by1(d: u64, q0: u64, r: int, uk: int, ub: int)
    requires B * r == uk + ub + q0 * d - d * B
    requires 0 <= uk <= d * d - d && 0 <= ub <= (B - 1) * (B - d)
    ensures 0 <= r + d && q0 - B < r && (r < B - d || r < q0)
  {
    MulNonNeg(q0, d);
    MulLt(d, B, B - q0);
    assert d * (B - q0) == B * d - q0 * d;
    var m := if q0 < B - d then B - d else q0;
    BelowMix(d, q0, m);
    BelowLarger(d, m, r, uk, ub, d * d, q0 * d, m * d);
  }

  /** The mix of B - d and q0 in the proportions B - d to d stays below the larger of them. */
  lemma BelowMix(d: int, q0: int, m: int)
    requires 0 <= d <= B && B - d <= m && q0 <= m
    ensures SQ - 2 * B * d + d * d <= B * m - m * d && q0 * d <= m * d
  {
    MulLe(B - d, m, B - d);
    MulLe(q0, m, d);
    var dd, md := d * d, m * d;
    assert (B - d) * (B - d) == SQ - 2 * B * d + dd;
    assert m * (B - d) == B * m - md;
  }

  lemma BelowLarger(d: int, m: int, r: int, uk: int, ub: int, dd: int, qd: int, md: int)
    requires B * r == uk + ub + qd - d * B
    requires uk <= dd - d && ub <= (B - 1) * (B - d) && d <= B
    requires SQ - 2 * B * d + dd <= B * m - md && qd <= md
    ensures r < m
  {
  }

  lemma QuotientFits(u: U128, d: u64, q: int)
    requires u.hi < d && q * d <= u.Value()
    ensures q < B
  {
    if B <= q { MulLe(B, q, d); }
  }

  /** The two conditional corrections, on the candidate remainder r0 known modulo 2^64. */
  method Correct2by1(qhi: u64, qlo: u64, d: u64, r: u64, ghost r0: int) returns (q: u64, rem: u64, ghost k: int)
    requires Normalized(d) && r == Wrap(r0)
    requires 0 <= r0 + d && qlo - B < r0 && (r0 < B - d || r0 < qlo)
    ensures -1 <= k <= 1 && q == Wrap(qhi + k) && rem < d
    ensures rem == if k == 0 then r0 else if k < 0 then r0 + d else r0 - d
  {
    q, rem, k := qhi, r, 0;
    if rem > qlo {
      q, k := Wrap(q - 1), -1;
      rem := Wrap(rem + d);
    }
    if rem >= d {
      q, k := Wrap(q + 1), k + 1;
      rem := rem - d;
    }
  }

  /** u = quot*d + rem with rem < d, using the reciprocal and two conditional corrections. */
  method Udivrem2by1(u: U128, d: u64, v: u64) returns (quot: u64, rem: u64)
    requires Normalized(d) && u.hi < d && IsReciprocal(d, v)
    ensures u.Value() == quot * d + rem && rem < d
  {
    hide Add, Umul, IsReciprocal;
    var p := Umul(v, u.hi);
    var q := Add(p, u);
    SumFits2by1(u, d, v, p);
    CandidateBounds2by1(u, d, v, q.hi, q.lo);
    var next := Wrap(q.hi + 1);
    var r := Wrap(u.lo - Wrap(next * d));
    WrappedRemainder(u, d, q.hi, next);
    ghost var k;
    quot, rem, k := Correct2by1(next, q.lo, d, r, u.Value() - (q.hi + 1) * d);
    FinishQuotient(u, d, q.hi, k, rem);
  }

  /** v*u.hi + u does not overflow 128 bits, so the sum is (2^64 + v)*u.hi + u.lo. */
  lemma SumFits2by1(u: U128, d: u64, v: u64, p: U128)
    requires u.hi < d && IsReciprocal(d, v) && p.Value() == v * u.hi
    ensures Add(p, u).Value() == (B + v) * u.hi + u.lo
  {
    hide Add;
    SumBelow(u.hi, u.lo, d, v);
  }

  lemma SumBelow(hi: u64, lo: u64, d: u64, v: u64)
    requires hi < d && (B + v) * d < SQ
    ensures v * hi + (hi * B + lo) < SQ && v * hi + (hi * B + lo) == (B + v) * hi + lo
  {
    MulLe(hi + 1, d, B + v);
    var x := (B + v) * hi;
    assert x == v * hi + hi * B;
    assert (hi + 1) * (B + v) == x + (B + v);
  }

  lemma WrappedRemainder(u: U128, d: u64, q1: u64, q: u64)
    requires q == Wrap(q1 + 1)
    ensures Wrap(u.lo - Wrap(q * d)) == Wrap(u.Value() - (q1 + 1) * d)
  {
    var w := q * d;
    var c := (q1 + 1) / B;
    assert (q1 + 1) * d == w + c * d * B;
    var x := u.lo - w;
    assert u.lo - Wrap(w) == x + (w / B) * B;
    WrapShift(x, w / B);
    assert u.Value() - (q1 + 1) * d == x + (u.hi - c * d) * B;
    WrapShift(x, u.hi - c * d);
  }

  lemma FinishQuotient(u: U128, d: u64, q1: u64, k: int, r: int)
    requires u.hi < d && -1 <= k <= 1 && 0 <= r
    requires r == u.Value() - (q1 + 1) * d - (if k == 0 then 0 else if k < 0 then 0 - d else d)
    ensures q1 + 1 + k < B
    ensures u.Value() == (q1 + 1 + k) * d + r
  {
    assert (q1 + 1 + k) * d == (q1 + 1) * d + k * d;
    QuotientFits(u, d, q1 + 1 + k);
  }

  // ---------- udivrem_3by2 ----------

  lemma Candidate3by2(u2: int, u1: int, u0: int, n: int, v: int, q1: int, q0: int)
    requires v * u2 + u1 == q1 * B + q0
    ensures B * (u2 * SQ + u1 * B + u0 - (q1 + 1) * n)
         == u2 * (B * SQ - v * n) + u1 * (SQ - n) + u0 * B + q0 * n - B * n
  {
    var w := q1 * B;
    assert w * n == (v * u2 + u1 - q0) * n;
    assert w * n == v * u2 * n + u1 * n - q0 * n;
    assert B * ((q1 + 1) * n) == w * n + B * n;
  }

  /** Upper bound of the scaled candidate when the divisor is not close to 2^128. */
  lemma UpperFar(u2: u64, u1: u64, u0: u64, n: int, uk: int)
    requires u2 * B + u1 < n && (B + 1) * n <= B * SQ
    requires B * uk <= (u2 * B) * n
    ensures B * (uk + u1 * (SQ - n) + u0 * B - B * n) < (SQ - n) * (SQ - n)
  {
    FarFirst(u2, u1, n);
    FarSecond(u1, n);
    FarSum(u1, u0, n, uk, u1 * n, n * n, (u2 * B) * n);
  }

  lemma FarFirst(u2: u64, u1: u64, n: int)
    requires u2 * B + u1 < n
    ensures (u2 * B) * n <= n * n - n - u1 * n
  {
    MulLe(u2 * B, n - 1 - u1, n);
    assert (n - 1 - u1) * n == n * n - n - u1 * n;
  }

  lemma FarSecond(u1: u64, n: int)
    requires (B + 1) * n <= B * SQ
    ensures B * SQ * u1 - (B + 1) * (u1 * n) <= (B - 1) * (B * SQ - (B + 1) * n)
  {
    MulLe(u1, B - 1, B * SQ - (B + 1) * n);
    assert u1 * (B * SQ - (B + 1) * n) == B * SQ * u1 - (B + 1) * (u1 * n);
  }

  lemma FarSum(u1: u64, u0: u64, n: int, uk: int, u1n: int, nn: int, top: int)
    requires u1n == u1 * n && nn == n * n && B * uk <= top && top <= nn - n - u1n
    requires B * SQ * u1 - (B + 1) * u1n <= (B - 1) * (B * SQ - (B + 1) * n)
    ensures B * (uk + u1 * (SQ - n) + u0 * B - B * n) < (SQ - n) * (SQ - n)
  {
    assert (SQ - n) * (SQ - n) == SQ * SQ - 2 * SQ * n + nn;
    assert u1 * (SQ - n) == SQ * u1 - u1n;
  }

  /** Upper bound when the divisor exceeds 2^128 - 2^64, where the reciprocal is zero. */
  lemma UpperNear(u2: u64, u1: u64, u0: u64, n: int, uk: int)
    requires u2 * B + u1 < n < SQ && (B + 1) * n > B * SQ
    requires uk <= (u2 * B) * (SQ - n)
    ensures B * (uk + u1 * (SQ - n) + u0 * B - B * n) < (SQ - n) * (SQ - n)
  {
    var s := SQ - n;
    assert (u2 * B) * s + u1 * s == (u2 * B + u1) * s;
    MulLe(u2 * B + u1, n - 1, s);
    assert (n - 1) * s == SQ * s - s * s - s;
    MulNonNeg(s, s);
    if s == B - 1 {
      assert s * s == (B - 1) * (B - 1);
    }
  }

  lemma Bounds3by2(u2: u64, u1: u64, u0: u64, n: int, q0: u64, r: int, uk: int)
    requires SQ / 2 <= n < SQ && 0 <= uk
    requires B * r == uk + u1 * (SQ - n) + u0 * B + q0 * n - B * n
    requires B * (uk + u1 * (SQ - n) + u0 * B - B * n) < (SQ - n) * (SQ - n)
    ensures 0 <= r + n && q0 * B - SQ < r && (r < SQ - n || r < q0 * B)
  {
    MulNonNeg(q0, n);
    MulNonNeg(u1, SQ - n);
    assert q0 * B - SQ < r by {
      MulLt(n, SQ, B - q0);
      assert n * (B - q0) == B * n - q0 * n;
    }
    var m := if q0 * B < SQ - n then SQ - n else q0 * B;
    MixBound(n, q0, m);
  }

  /** A convex mix of two values is at most their maximum. */
  lemma MixBound(n: int, q0: int, m: int)
    requires 0 <= n <= SQ && SQ - n <= m && q0 * B <= m
    ensures (SQ - n) * (SQ - n) + B * (q0 * n) <= SQ * m
  {
    MulLe(SQ - n, m, SQ - n);
    MulLe(q0 * B, m, n);
    assert q0 * B * n == B * (q0 * n);
    assert m * (SQ - n) + m * n == SQ * m;
  }

  /** The two upper bounds together, for the remainder k the reciprocal leaves of 2^192. */
  lemma ScaledBound(u2: u64, u1: u64, u0: u64, n: int, v: u64, k: int)
    requires SQ / 2 <= n < SQ && u2 * B + u1 < n
    requires k == B * SQ - (B + v) * n && 0 <= k <= n
    ensures B * (u2 * k + u1 * (SQ - n) + u0 * B - B * n) < (SQ - n) * (SQ - n)
  {
    if (B + 1) * n <= B * SQ {
      ScaledFar(u2, k, n);
      UpperFar(u2, u1, u0, n, u2 * k);
    } else {
      ScaledNear(u2, v, k, n);
      UpperNear(u2, u1, u0, n, u2 * k);
    }
  }

  lemma ScaledFar(u2: u64, k: int, n: int)
    requires 0 <= k <= n
    ensures B * (u2 * k) <= (u2 * B) * n
  {
    MulLe(k, n, u2 * B);
  }

  lemma ScaledNear(u2: u64, v: u64, k: int, n: int)
    requires 0 <= n && k == B * SQ - (B + v) * n
    ensures u2 * k <= (u2 * B) * (SQ - n)
  {
    MulLe(B, B + v, n);
    MulLe(k, B * (SQ - n), u2);
    assert B * (SQ - n) * u2 == (u2 * B) * (SQ - n);
  }

  lemma RemainderOfReciprocal(n: int, v: int)
    requires (B + v) * n <= B * SQ - 1 < (B + v + 1) * n
    ensures 0 <= B * SQ - (B + v) * n <= n
  {
    assert (B + v + 1) * n == (B + v) * n + n;
  }

  /** The remainder a reciprocal leaves of 2^192. */
  lemma ReciprocalRemainder(d: U128, v: u64)
    requires Normalized(d.hi) && IsReciprocal3by2(d, v)
    ensures SQ / 2 <= d.Value() < SQ
    ensures 0 <= B * SQ - (B + v) * d.Value() <= d.Value()
  {
    ValueBounds(d);
    RemainderOfReciprocal(d.Value(), v);
  }

  /** The two corrections of udivrem_3by2 suffice: the candidate misses by at most one either way. */
  lemma CandidateBounds3by2(u2: u64, u1: u64, u0: u64, n: int, v: u64, q1: int, q0: u64, k: int)
    requires SQ / 2 <= n < SQ && u2 * B + u1 < n
    requires k == B * SQ - (B + v) * n && 0 <= k <= n
    requires (B + v) * u2 + u1 == q1 * B + q0
    ensures var r := u2 * SQ + u1 * B + u0 - (q1 + 1) * n;
            0 <= r + n && q0 * B - SQ < r && (r < SQ - n || r < q0 * B)
  {
    Candidate3by2(u2, u1, u0, n, B + v, q1, q0);
    MulNonNeg(u2, k);
    ScaledBound(u2, u1, u0, n, v, k);
    Bounds3by2(u2, u1, u0, n, q0, u2 * SQ + u1 * B + u0 - (q1 + 1) * n, u2 * k);
  }

  /** The two conditional corrections, on the two-word candidate remainder known modulo 2^128. */
  method Correct3by2(qhi: u64, qlo: u64, d: U128, r: U128, ghost r0: int) returns (q: u64, rem: U128, ghost k: int)
    requires Normalized(d.hi)
    requires r.Value() == r0 || r.Value() == r0 + SQ
    requires 0 <= r0 + d.Value() && qlo * B - SQ < r0 && (r0 < SQ - d.Value() || r0 < qlo * B)
    ensures -1 <= k <= 1 && q == Wrap(qhi + k) && rem.Value() < d.Value()
    ensures rem.Value() == if k == 0 then r0 else if k < 0 then r0 + d.Value() else r0 - d.Value()
  {
    hide Add, Sub;
    ValueBounds(r);
    q, rem, k := qhi, r, 0;
    assert rem.hi >= qlo <==> r.Value() >= qlo * B;
    if rem.hi >= qlo {
      q, k := Wrap(q - 1), -1;
      rem := Add(rem, d);
    }
    if !Less(rem, d) {
      q, k := Wrap(q + 1), k + 1;
      rem := Sub(rem, d);
    }
  }

  /** (u2, u1, u0) = quot*d + rem with rem < d. */
  method Udivrem3by2(u2: u64, u1: u64, u0: u64, d: U128, v: u64) returns (quot: u64, rem: U128)
    requires Normalized(d.hi) && IsReciprocal3by2(d, v)
    requires u2 * B + u1 < d.Value()
    ensures u2 * SQ + u1 * B + u0 == quot * d.Value() + rem.Value()
    ensures rem.Value() < d.Value()
  {
    hide Add, Sub, Umul, IsReciprocal3by2, Less, Normalized, Wrap;
    var q := Add(Umul(v, u2), U128(u2, u1));
    SumFits3by2(u2, u1, d, v);
    ReciprocalRemainder(d, v);
    CandidateBounds3by2(u2, u1, u0, d.Value(), v, q.hi, q.lo, B * SQ - (B + v) * d.Value());
    var r1 := Wrap(u1 - Wrap(q.hi * d.hi));
    var t := Umul(d.lo, q.hi);
    var r := Sub(Sub(U128(r1, u0), t), d);
    ghost var r0 := u2 * SQ + u1 * B + u0 - (q.hi + 1) * d.Value();
    WrappedRemainder3by2(u2, u1, u0, d, q.hi, r1, t, r, r0);
    ghost var k;
    quot, rem, k := Correct3by2(Wrap(q.hi + 1), q.lo, d, r, r0);
    FinishQuotient3by2(u2, u1, u0, d, q.hi, k, rem);
  }

  lemma SumFits3by2(u2: u64, u1: u64, d: U128, v: u64)
    requires u2 * B + u1 < d.Value() && Normalized(d.hi) && IsReciprocal3by2(d, v)
    ensures Add(Umul(v, u2), U128(u2, u1)).Value() == (B + v) * u2 + u1
  {
    hide Add, Umul;
    SumFits(u2, u1, d.Value(), v);
  }

  lemma SumFits(u2: u64, u1: u64, n: int, v: u64)
    requires u2 * B + u1 < n && (B + v) * n < B * SQ
    ensures v * u2 + (u2 * B + u1) < SQ && v * u2 + (u2 * B + u1) == (B + v) * u2 + u1
  {
    MulLe(u2 * B + u1 + 1, n, B + v);
    MulNonNeg(v, u1 + 1);
    FitsScaled(u2, u1, v, (B + v) * u2);
  }

  lemma FitsScaled(u2: u64, u1: u64, v: u64, x: int)
    requires x == (B + v) * u2 && 0 <= v * (u1 + 1) && (u2 * B + u1 + 1) * (B + v) < B * SQ
    ensures x + u1 < SQ && x == v * u2 + u2 * B
  {
    assert (u2 * B + u1 + 1) * (B + v) == B * x + B * (u1 + 1) + v * (u1 + 1);
  }

  lemma WrappedRemainder3by2(u2: u64, u1: u64, u0: u64, d: U128, q1: u64, r1: u64, t: U128, r: U128, r0: int)
    requires r1 == Wrap(u1 - Wrap(q1 * d.hi)) && t.Value() == d.lo * q1
    requires r == Sub(Sub(U128(r1, u0), t), d)
    requires r0 == u2 * SQ + u1 * B + u0 - (q1 + 1) * d.Value()
    requires -SQ <= r0 < SQ
    ensures r.Value() == r0 || r.Value() == r0 + SQ
  {
    hide Sub, Wrap;
    var w := q1 * d.hi;
    var c1 := WrapOffset(w);
    var c2 := WrapOffset(u1 - Wrap(w));
    var c3 := SubModular(U128(r1, u0), t, d, r);
    TimesValue(d, q1);
    ValueBounds(r);
    ResidueChoice(u2, u1, u0, w, t.Value() + d.Value(), r1, c2 - c1, c3, r.Value(), r0);
  }

  lemma TimesValue(d: U128, q: int)
    ensures (q + 1) * d.Value() == (q * d.hi) * B + d.lo * q + d.Value()
  {
    assert q * (d.hi * B) == (q * d.hi) * B;
  }

  lemma ResidueChoice(u2: int, u1: int, u0: int, w: int, y: int, r1: int, c: int, c3: int, x: int, r0: int)
    requires r1 == u1 - w + c * B && x == r1 * B + u0 - y + c3 * SQ
    requires r0 == u2 * SQ + u1 * B + u0 - (w * B + y)
    requires 0 <= x < SQ && -SQ <= r0 < SQ
    ensures x == r0 || x == r0 + SQ
  {
  }

  lemma SubModular(a: U128, t: U128, d: U128, r: U128) returns (c: int)
    requires r == Sub(Sub(a, t), d)
    ensures r.Value() == a.Value() - t.Value() - d.Value() + c * SQ
  {
    hide Sub;
    c := (if a.Value() >= t.Value() then 0 else 1) + (if Sub(a, t).Value() >= d.Value() then 0 else 1);
  }

  lemma FinishQuotient3by2(u2: u64, u1: u64, u0: u64, d: U128, q1: u64, k: int, rem: U128)
    requires u2 * B + u1 < d.Value() && -1 <= k <= 1
    requires rem.Value() == u2 * SQ + u1 * B + u0 - (q1 + 1) * d.Value()
                            - (if k == 0 then 0 else if k < 0 then 0 - d.Value() else d.Value())
    ensures q1 + 1 + k < B
    ensures u2 * SQ + u1 * B + u0 == (q1 + 1 + k) * d.Value() + rem.Value()
  {
    var n := d.Value();
    assert (q1 + 1 + k) * n == (q1 + 1) * n + k * n;
    if B <= q1 + 1 + k { MulLe(B, q1 + 1 + k, n); }
  }
}
