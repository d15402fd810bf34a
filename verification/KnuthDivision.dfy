/**
 Schoolbook division of word vectors, updating the numerator in place
 (libs/eosio.evm/external/intx/base.hpp).
 */
module KnuthDivision {
  import opened MachineWord
  import opened Products
  import opened Uint128
  import opened Reciprocal
  import opened WordDivision
  import opened WordVector

  // ---------- one and two word divisors ----------

  /** The numerator while digits are produced: unread low words, quotient so far, remainder so far. */
  ghost function Partial(low: seq<u64>, quot: seq<u64>, d: int, r: int): int {
    Val(low) + Pow(|low|) * (Val(quot) * d + r)
  }

  lemma DigitStep(low: int, p: int, w: int, quot: int, d: int, r: int, q: int, rem: int, v1: int, p1: int, q1: int)
    requires r * B + w == q * d + rem
    requires v1 == low + p * w && p1 == B * p && q1 == q + B * quot
    ensures v1 + p1 * (quot * d + r) == low + p * (q1 * d + rem)
  {
    assert p1 * (quot * d + r) == p * (B * (quot * d)) + p * (B * r);
    assert q1 * d == q * d + B * (quot * d);
    assert p * (q * d + rem) == p * (r * B + w);
  }

  /** One quotient digit: the next word w joins the remainder r and leaves digit q. */
  lemma PartialStep(low: seq<u64>, w: u64, quot: seq<u64>, d: int, r: int, q: u64, rem: int)
    requires r * B + w == q * d + rem
    ensures Partial(low + [w], quot, d, r) == Partial(low, [q] + quot, d, rem)
  {
    hide Val, Pow;
    ValSnoc(low, w);
    ValCons(q, quot);
    PowSucc(|low|);
    DigitStep(Val(low), Pow(|low|), w, Val(quot), d, r, q, rem, Val(low + [w]), Pow(|low| + 1), Val([q] + quot));
  }

  lemma PartialStart(low: seq<u64>, w: u64, d: int)
    ensures Partial(low, [], d, w) == Val(low + [w])
  {
    ValSnoc(low, w);
  }

  lemma PartialStart2(low: seq<u64>, w: u64, h: u64, d: int)
    ensures Partial(low, [], d, h * B + w) == Val(low + [w, h])
  {
    ValAppend(low, [w, h]);
    ValCons(w, [h]);
    ValCons(h, []);
    assert [w] + [h] == [w, h] && [h] + [] == [h];
  }

  lemma PartialEnd(quot: seq<u64>, d: int, r: int)
    ensures Partial([], quot, d, r) == Val(quot) * d + r
  {
  }

  /** udivrem_by1: u[0..m] becomes the quotient and the remainder is returned. */
  method UdivremBy1(u: array<u64>, m: nat, d: u64) returns (r: u64)
    requires m < u.Length && Normalized(d) && u[m] < d
    modifies u
    ensures Val(old(u[..m + 1])) == Val(u[..m]) * d + r && r < d
    ensures u[m] == 0 && u[m + 1..] == old(u[m + 1..])
  {
    hide IsReciprocal, Reciprocal2by1, Val, Partial;
    var v := Reciprocal2by1(d);
    Reciprocal2by1Correct(d);
    r := u[m];
    u[m] := 0;
    ghost var u0 := old(u[..]);
    PartialStart(u0[..m], r, d);
    assert u0[..m] + [r] == u0[..m + 1] && u[m..m] == [];
    var j := m;
    while j > 0
      invariant 0 <= j <= m && r < d
      invariant u[m] == 0 && u[..j] == u0[..j] && u[m + 1..] == u0[m + 1..]
      invariant Val(u0[..m + 1]) == Partial(u0[..j], u[j..m], d, r)
    {
      j := j - 1;
      ghost var r0 := r;
      var q;
      q, r := Udivrem2by1(U128(r, u[j]), d, v);
      assert u0[..j] + [u[j]] == u0[..j + 1];
      PartialStep(u0[..j], u[j], u[j + 1..m], d, r0, q, r);
      u[j] := q;
      assert u[j..m] == [q] + u[j + 1..m];
    }
    PartialEnd(u[..m], d, r);
    assert u0[..0] == [] && u[0..m] == u[..m];
  }

  /** udivrem_by2: u[0..m] becomes the quotient and the two-word remainder is returned. */
  method UdivremBy2(u: array<u64>, m: nat, d: U128) returns (r: U128)
    requires 1 <= m < u.Length && Normalized(d.hi) && u[m] < d.hi
    modifies u
    ensures Val(old(u[..m + 1])) == Val(u[..m - 1]) * d.Value() + r.Value()
    ensures r.Value() < d.Value()
    ensures u[m] == 0 && u[m - 1] == 0 && u[m + 1..] == old(u[m + 1..])
  {
    hide IsReciprocal3by2, Val, Partial;
    var v := Reciprocal3by2(d);
    r := U128(u[m], u[m - 1]);
    u[m] := 0;
    u[m - 1] := 0;
    ghost var u0 := old(u[..]);
    PartialStart2(u0[..m - 1], u0[m - 1], u0[m], d.Value());
    assert u0[..m - 1] + [u0[m - 1], u0[m]] == u0[..m + 1] && u[m - 1..m - 1] == [];
    var j := m - 1;
    while j > 0
      invariant 0 <= j <= m - 1 && r.Value() < d.Value()
      invariant u[m] == 0 && u[m - 1] == 0 && u[..j] == u0[..j] && u[m + 1..] == u0[m + 1..]
      invariant Val(u0[..m + 1]) == Partial(u0[..j], u[j..m - 1], d.Value(), r.Value())
    {
      j := j - 1;
      ghost var r0 := r.Value();
      var q;
      q, r := Udivrem3by2(r.hi, r.lo, u[j], d, v);
      assert u0[..j] + [u[j]] == u0[..j + 1];
      PartialStep(u0[..j], u[j], u[j + 1..m - 1], d.Value(), r0, q, r.Value());
      u[j] := q;
      assert u[j..m - 1] == [q] + u[j + 1..m - 1];
    }
    PartialEnd(u[..m - 1], d.Value(), r.Value());
    assert u0[..0] == [] && u[0..m - 1] == u[..m - 1];
  }

  // ---------- the digit estimate of Algorithm D ----------

  /** Three leading numerator words against two leading divisor words. */
  ghost function Top3(u2: u64, u1: u64, u0: u64): int {
    u2 * SQ + u1 * B + u0
  }

  /** q*hi + rhat is the dividend (u2, u1). */
  ghost predicate Remains(u2: u64, u1: u64, hi: u64, q: int, rhat: int) {
    u2 * B + u1 == q * hi + rhat
  }

  /** q is too large as a quotient of the three leading words. */
  ghost predicate TooLarge(u2: u64, u1: u64, u0: u64, d: U128, q: int) {
    q * d.Value() > Top3(u2, u1, u0)
  }

  /** The adjustment test compares q*d.lo with (rhat, u0); it decides whether q is too large. */
  lemma TestMeaning(u2: u64, u1: u64, u0: u64, d: U128, q: u64, rhat: U128)
    requires Remains(u2, u1, d.hi, q, rhat.Value())
    ensures TooLarge(u2, u1, u0, d, q) <==> rhat.hi == 0 && Less(U128(rhat.lo, u0), Umul(q, d.lo))
  {
    hide Umul, Less;
    assert q * (d.hi * B) == (q * d.hi) * B;
    assert q * d.Value() == (q * d.hi) * B + q * d.lo;
    if rhat.hi != 0 {
      MulLe2(q, d.lo, B - 1, B - 1);
    }
  }

  /** Every admissible digit is at most q: q is an upper estimate. */
  ghost predicate UpperEstimate(u2: u64, u1: u64, u0: u64, d: U128, q: int) {
    forall x: nat | x < B && !TooLarge(u2, u1, u0, d, x) :: x <= q
  }

  lemma LowerEstimate(u2: u64, u1: u64, u0: u64, d: U128, q: u64)
    requires UpperEstimate(u2, u1, u0, d, q) && TooLarge(u2, u1, u0, d, q)
    ensures UpperEstimate(u2, u1, u0, d, q - 1) && q >= 1
  {
    assert 0 * d.Value() == 0;
  }

  lemma HighQuotientIsUpper(u2: u64, u1: u64, u0: u64, d: U128, q: u64, rhat: u64)
    requires Remains(u2, u1, d.hi, q, rhat) && rhat < d.hi
    ensures UpperEstimate(u2, u1, u0, d, q)
  {
    forall x: nat | x < B && !TooLarge(u2, u1, u0, d, x)
      ensures x <= q
    {
      assert x * (d.hi * B) == (x * d.hi) * B;
      assert x * d.Value() == (x * d.hi) * B + x * d.lo;
      MulNonNeg(x, d.lo);
      assert x * d.hi <= u2 * B + u1;
      MulLtCancel(x, q + 1, d.hi);
    }
  }

  /** Lowering the estimate by one raises the remainder by the high divisor word. */
  lemma RemainsDown(u2: u64, u1: u64, hi: u64, q: int, rhat: int)
    requires Remains(u2, u1, hi, q, rhat) && 0 <= rhat
    ensures Remains(u2, u1, hi, q - 1, rhat + hi)
    ensures q * hi <= u2 * B + u1
  {
    assert (q - 1) * hi == q * hi - hi;
  }

  /** The digit estimate: never too small, and either exact on three words or already lowered. */
  method EstimateDigit(u2: u64, u1: u64, u0: u64, d: U128, reciprocal: u64) returns (qhat: u64)
    requires Normalized(d.hi) && IsReciprocal(d.hi, reciprocal) && u2 <= d.hi
    ensures UpperEstimate(u2, u1, u0, d, qhat)
    ensures !TooLarge(u2, u1, u0, d, qhat) || (qhat + 1) * d.hi <= u2 * B + u1
  {
    hide IsReciprocal, Umul, Add, Sub, Less, Top3, UpperEstimate, TooLarge, Remains;
    var rhat: U128;
    var dividend := U128(u2, u1);
    if dividend.hi >= d.hi {
      qhat := B - 1;
      rhat := Add(Sub(dividend, U128(d.hi, 0)), U128(0, d.hi));
      SaturatedRemains(u2, u1, u0, d);
      TestMeaning(u2, u1, u0, d, qhat, rhat);
      if rhat.hi == 0 && Less(U128(rhat.lo, u0), Umul(qhat, d.lo)) {
        LowerEstimate(u2, u1, u0, d, qhat);
        RemainsDown(u2, u1, d.hi, qhat, rhat.Value());
        qhat := qhat - 1;
      }
    } else {
      var rem;
      qhat, rem := Udivrem2by1(dividend, d.hi, reciprocal);
      QuotientRemains(u2, u1, d.hi, qhat, rem);
      HighQuotientIsUpper(u2, u1, u0, d, qhat, rem);
      rhat := U128(0, rem);
      TestMeaning(u2, u1, u0, d, qhat, rhat);
      if Less(U128(rhat.lo, u0), Umul(qhat, d.lo)) {
        LowerEstimate(u2, u1, u0, d, qhat);
        RemainsDown(u2, u1, d.hi, qhat, rhat.Value());
        qhat := qhat - 1;
        rhat := Add(rhat, U128(0, d.hi));
        TestMeaning(u2, u1, u0, d, qhat, rhat);
        if rhat.hi == 0 && Less(U128(rhat.lo, u0), Umul(qhat, d.lo)) {
          LowerEstimate(u2, u1, u0, d, qhat);
          RemainsDown(u2, u1, d.hi, qhat, rhat.Value());
          qhat := qhat - 1;
        }
      }
    }
  }

  lemma SaturatedRemains(u2: u64, u1: u64, u0: u64, d: U128)
    requires u2 == d.hi
    ensures Remains(u2, u1, d.hi, B - 1, u1 + d.hi)
    ensures UpperEstimate(u2, u1, u0, d, B - 1)
  {
  }

  lemma QuotientRemains(u2: u64, u1: u64, hi: u64, q: u64, rem: u64)
    requires U128(u2, u1).Value() == q * hi + rem
    ensures Remains(u2, u1, hi, q, rem)
  {
  }

  /** u starts with the words of t at weight p. */
  ghost predicate Leading(t: int, p: int, u: int) {
    t * p <= u < (t + 1) * p
  }

  lemma QuotientNotTooLarge(u: int, v: int, p: int, u2: u64, u1: u64, u0: u64, d: U128, q: nat)
    requires p >= 1 && Leading(Top3(u2, u1, u0), p, u) && Leading(d.Value(), p, v)
    requires q * v <= u
    ensures !TooLarge(u2, u1, u0, d, q)
  {
    hide Top3;
    var t, n := Top3(u2, u1, u0), d.Value();
    MulLe(n * p, v, q);
    assert n * p * q == (q * n) * p;
    MulLtCancel(q * n, t + 1, p);
  }

  lemma AlmostFits(u: int, v: int, p: int, u2: u64, u1: u64, u0: u64, d: U128, qhat: u64)
    requires Normalized(d.hi) && p >= 1 && qhat >= 1
    requires Leading(Top3(u2, u1, u0), p, u) && Leading(d.Value(), p, v)
    requires !TooLarge(u2, u1, u0, d, qhat)
    ensures (qhat - 1) * v <= u
  {
    hide Top3;
    var t, n := Top3(u2, u1, u0), d.Value();
    MulLe(v, (n + 1) * p, qhat - 1);
    assert (qhat - 1) * (n + 1) == qhat * n + qhat - 1 - n;
    assert ((n + 1) * p) * (qhat - 1) == ((qhat - 1) * (n + 1)) * p;
    MulLe((qhat - 1) * (n + 1), t, p);
  }

  lemma LoweredFits(u: int, v: int, p: int, u2: u64, u1: u64, u0: u64, d: U128, qhat: u64)
    requires Normalized(d.hi) && p >= 1 && qhat >= 1
    requires Leading(Top3(u2, u1, u0), p, u) && Leading(d.Value(), p, v)
    requires (qhat + 1) * d.hi <= u2 * B + u1
    ensures (qhat - 1) * v <= u
  {
    LoweredDivisor(v, p, d, qhat);
    LoweredProduct(u2, u1, d.hi, qhat);
    MulLe(B * ((qhat - 1) * (d.hi + 1)), Top3(u2, u1, u0), p);
  }

  /** The divisor times the lowered digit, rounded up to its leading word. */
  lemma LoweredDivisor(v: int, p: int, d: U128, qhat: u64)
    requires p >= 1 && qhat >= 1 && Leading(d.Value(), p, v)
    ensures (qhat - 1) * v <= (B * ((qhat - 1) * (d.hi + 1))) * p
  {
    var n1 := (d.hi + 1) * B;
    MulLe(d.Value() + 1, n1, p);
    MulLe(v, n1 * p, qhat - 1);
    Regroup(qhat - 1, d.hi + 1, p);
  }

  lemma Regroup(a: int, h: int, p: int)
    ensures h * B * p * a == (B * (a * h)) * p
  {
    assert h * B * p * a == (h * B * a) * p;
    assert h * B * a == B * (a * h);
  }

  lemma LoweredProduct(u2: u64, u1: u64, hi: u64, qhat: u64)
    requires Normalized(hi) && (qhat + 1) * hi <= u2 * B + u1
    ensures (qhat - 1) * (hi + 1) <= u2 * B + u1
  {
    assert (qhat - 1) * (hi + 1) == (qhat + 1) * hi - 2 * hi + qhat - 1;
  }

  /** The estimated digit is the true digit or one more. */
  lemma DigitBounds(u: int, v: int, p: int, u2: u64, u1: u64, u0: u64, d: U128, qhat: u64)
    requires Normalized(d.hi) && p >= 1 && 0 <= u < B * v && 0 < v
    requires Leading(Top3(u2, u1, u0), p, u) && Leading(d.Value(), p, v)
    requires UpperEstimate(u2, u1, u0, d, qhat)
    requires !TooLarge(u2, u1, u0, d, qhat) || (qhat + 1) * d.hi <= u2 * B + u1
    ensures u / v <= qhat <= u / v + 1
  {
    hide Top3, Leading, TooLarge;
    var q := u / v;
    assert q * v <= u < q * v + v;
    MulLtCancel(q, B, v);
    assert q >= 0;
    QuotientNotTooLarge(u, v, p, u2, u1, u0, d, q);
    if qhat >= 1 {
      if !TooLarge(u2, u1, u0, d, qhat) {
        AlmostFits(u, v, p, u2, u1, u0, d, qhat);
      } else {
        LoweredFits(u, v, p, u2, u1, u0, d, qhat);
      }
      assert (q + 1) * v == q * v + v;
      MulLtCancel(qhat - 1, q + 1, v);
    }
  }

  // ---------- multiply-and-subtract and add-back ----------

  /** One word of multiply-and-subtract: the borrow never exceeds the digit. */
  method SubtractWord(w: u64, q: u64, vw: u64, borrow: u64) returns (w': u64, borrow': u64)
    requires borrow <= q
    ensures w' - borrow' * B == w - borrow - q * vw
    ensures borrow' <= q
  {
    hide Umul, Sub;
    var p := Umul(q, vw);
    MulLe2(q, vw, q, B - 1);
    MulNonNeg(q, vw);
    var s := Sub(Sub(U128(0, w), U128(0, borrow)), U128(0, p.lo));
    ghost var c := SubModular(U128(0, w), U128(0, borrow), U128(0, p.lo), s);
    w', borrow' := s.lo, Wrap(p.hi - s.hi);
    BorrowBound(w, q, q * vw, borrow, p, s, c);
  }

  lemma BorrowBound(w: u64, q: u64, qv: int, borrow: u64, p: U128, s: U128, c: int)
    requires borrow <= q && p.Value() == qv && 0 <= qv <= q * (B - 1)
    requires s.Value() == w - borrow - p.lo + c * SQ
    ensures s.lo - Wrap(p.hi - s.hi) * B == w - borrow - qv
    ensures Wrap(p.hi - s.hi) <= q
  {
    var x := p.hi - s.hi + c * B;
    assert s.lo - x * B == w - borrow - qv;
    assert 0 <= x <= q;
    WrapShift(p.hi - s.hi, c);
  }

  /** low = orig - q*v with a borrow out of the top word. */
  ghost predicate Subtracted(low: seq<u64>, borrow: u64, orig: seq<u64>, v: seq<u64>, q: u64) {
    Val(low) - borrow * Pow(|low|) == Val(orig) - q * Val(v)
  }

  lemma SubtractedStep(low: seq<u64>, b: u64, orig: seq<u64>, v: seq<u64>, q: u64, w': u64, b': u64, w: u64, vw: u64)
    requires |low| == |orig| == |v| && Subtracted(low, b, orig, v, q)
    requires w' - b' * B == w - b - q * vw
    ensures Subtracted(low + [w'], b', orig + [w], v + [vw], q)
  {
    hide Val, Pow;
    ValSnoc(low, w');
    ValSnoc(orig, w);
    ValSnoc(v, vw);
    PowSucc(|low|);
    var p := Pow(|low|);
    assert p * (w' - b' * B) == p * (w - b - q * vw);
    assert b' * (B * p) == p * (b' * B);
    assert q * (Val(v) + p * vw) == q * Val(v) + p * (q * vw);
  }

  lemma SubtractedStart(q: u64)
    ensures Subtracted([], 0, [], [], q)
  {
  }

  /** un[j..j+n] -= qhat * vn[..n], returning the borrow. */
  method MultiplySubtract(un: array<u64>, j: nat, vn: seq<u64>, n: nat, qhat: u64) returns (borrow: u64)
    requires j + n <= un.Length && n <= |vn|
    modifies un
    ensures Subtracted(un[j..j + n], borrow, old(un[j..j + n]), vn[..n], qhat)
    ensures un[..j] == old(un[..j]) && un[j + n..] == old(un[j + n..])
  {
    hide Subtracted;
    borrow := 0;
    ghost var orig := un[..];
    SubtractedStart(qhat);
    assert un[j..j] == [] && orig[j..j] == [] && vn[..0] == [];
    for i := 0 to n
      invariant borrow <= qhat
      invariant un[..j] == orig[..j] && un[j + i..] == orig[j + i..]
      invariant Subtracted(un[j..j + i], borrow, orig[j..j + i], vn[..i], qhat)
    {
      ghost var low, b := un[j..j + i], borrow;
      var w;
      w, borrow := SubtractWord(un[i + j], qhat, vn[i], borrow);
      SubtractedStep(low, b, orig[j..j + i], vn[..i], qhat, w, borrow, orig[j + i], vn[i]);
      un[i + j] := w;
      assert un[j..j + i + 1] == low + [w];
      assert orig[j..j + i + 1] == orig[j..j + i] + [orig[j + i]];
      assert vn[..i + 1] == vn[..i] + [vn[i]];
    }
  }

  /** low = orig + v with a carry out of the top word. */
  ghost predicate AddedBack(low: seq<u64>, carry: u64, orig: seq<u64>, v: seq<u64>) {
    Val(low) + carry * Pow(|low|) == Val(orig) + Val(v)
  }

  lemma AddedBackStep(low: seq<u64>, c: u64, orig: seq<u64>, v: seq<u64>, w': u64, c': u64, w: u64, vw: u64)
    requires |low| == |orig| == |v| && AddedBack(low, c, orig, v)
    requires w' + c' * B == w + vw + c
    ensures AddedBack(low + [w'], c', orig + [w], v + [vw])
  {
    hide Val, Pow;
    ValSnoc(low, w');
    ValSnoc(orig, w);
    ValSnoc(v, vw);
    PowSucc(|low|);
    var p := Pow(|low|);
    assert p * (w' + c' * B) == p * (w + vw + c);
    assert c' * (B * p) == p * (c' * B);
  }

  lemma AddedBackStart()
    ensures AddedBack([], 0, [], [])
  {
  }

  /** un[j..j+n] += vn[..n], returning the carry. */
  method AddBack(un: array<u64>, j: nat, vn: seq<u64>, n: nat) returns (carry: u64)
    requires j + n <= un.Length && n <= |vn|
    modifies un
    ensures AddedBack(un[j..j + n], carry, old(un[j..j + n]), vn[..n])
    ensures un[..j] == old(un[..j]) && un[j + n..] == old(un[j + n..])
  {
    hide AddedBack, Add;
    carry := 0;
    ghost var orig := un[..];
    AddedBackStart();
    assert un[j..j] == [] && orig[j..j] == [] && vn[..0] == [];
    for i := 0 to n
      invariant carry <= 1
      invariant un[..j] == orig[..j] && un[j + i..] == orig[j + i..]
      invariant AddedBack(un[j..j + i], carry, orig[j..j + i], vn[..i])
    {
      ghost var low, c := un[j..j + i], carry;
      var s := Add(Add(U128(0, un[i + j]), U128(0, vn[i])), U128(0, carry));
      carry := s.hi;
      AddedBackStep(low, c, orig[j..j + i], vn[..i], s.lo, carry, orig[j + i], vn[i]);
      un[i + j] := s.lo;
      assert un[j..j + i + 1] == low + [s.lo];
      assert orig[j..j + i + 1] == orig[j..j + i] + [orig[j + i]];
      assert vn[..i + 1] == vn[..i] + [vn[i]];
    }
  }

  // ---------- one digit of Algorithm D ----------

  lemma LeadingSplit(s: seq<u64>, i: nat, t: int)
    requires i <= |s| && Val(s[i..]) == t
    ensures Leading(t, Pow(i), Val(s))
  {
    hide Val, Pow;
    ValSplit(s, i);
    ValBound(s[..i]);
    assert (t + 1) * Pow(i) == t * Pow(i) + Pow(i);
  }

  lemma LeadingNumerator(u: seq<u64>, n: nat)
    requires n >= 2 && |u| == n + 1
    ensures Leading(Top3(u[n], u[n - 1], u[n - 2]), Pow(n - 2), Val(u))
  {
    var top := u[n - 2..];
    assert top == [u[n - 2]] + ([u[n - 1]] + ([u[n]] + []));
    ValCons(u[n - 2], [u[n - 1]] + ([u[n]] + []));
    ValCons(u[n - 1], [u[n]] + []);
    ValCons(u[n], []);
    LeadingSplit(u, n - 2, Top3(u[n], u[n - 1], u[n - 2]));
  }

  lemma LeadingDivisor(v: seq<u64>, n: nat)
    requires n >= 2 && |v| == n
    ensures Leading(U128(v[n - 1], v[n - 2]).Value(), Pow(n - 2), Val(v))
    ensures Leading(v[n - 1], Pow(n - 1), Val(v))
    ensures Normalized(v[n - 1]) ==> Val(v) > 0
  {
    assert v[n - 2..] == [v[n - 2]] + ([v[n - 1]] + []);
    ValCons(v[n - 2], [v[n - 1]] + []);
    ValCons(v[n - 1], []);
    assert v[n - 1..] == [v[n - 1]] + [];
    LeadingSplit(v, n - 2, U128(v[n - 1], v[n - 2]).Value());
    LeadingSplit(v, n - 1, v[n - 1]);
    if Normalized(v[n - 1]) { MulLe(1, v[n - 1], Pow(n - 1)); }
  }

  /** A numerator below B*v has a leading word at most the divisor's. */
  lemma TopWordBound(u: seq<u64>, v: seq<u64>, n: nat)
    requires n >= 2 && |u| == n + 1 && |v| == n && Val(u) < B * Val(v)
    ensures u[n] <= v[n - 1]
  {
    hide Val, Pow;
    LeadingDivisor(v, n);
    TopWordAtMost(u, n);
    PowSucc(n - 1);
    ScaledTop(u[n], v[n - 1], Pow(n - 1), Val(v));
  }

  lemma TopWordAtMost(u: seq<u64>, n: nat)
    requires |u| == n + 1
    ensures u[n] * Pow(n) <= Val(u)
  {
    hide Val, Pow;
    ValSplit(u, n);
    assert u[n..] == [u[n]] + [];
    ValCons(u[n], []);
    EmptyValue();
  }

  lemma ScaledTop(a: int, b: int, p: int, v: int)
    requires p >= 1 && a * (B * p) < B * v && v < (b + 1) * p
    ensures a <= b
  {
    assert a * (B * p) == B * (a * p);
    MulLtCancel(a, b + 1, p);
  }

  /** u = q*v + r with r < v, all as vectors. */
  ghost predicate Divides(u: seq<u64>, v: seq<u64>, q: u64, r: seq<u64>) {
    Val(u) == q * Val(v) + Val(r) && Val(r) < Val(v)
  }

  /** A value whose high part would push it out of [0, p) has high part zero. */
  lemma HighPartZero(low: int, h: int, p: int)
    requires 0 <= low < p && 0 <= low + h * p < p
    ensures h == 0
  {
    if h >= 1 { MulLe(1, h, p); }
    if h <= -1 { MulLe(h, -1, p); }
  }

  lemma NegativeHigh(low: int, h: int, p: int)
    requires 0 <= low < p && h < 0
    ensures low + h * p < 0
  {
    MulLe(h, -1, p);
  }

  lemma ExactDigit(x: int, y: int, q: int, low: int, h: int, p: int)
    requires 0 < y <= p && 0 <= low < p && 0 <= h
    requires low + h * p == x - q * y
    requires x / y <= q <= x / y + 1
    ensures h == 0 && low < y
  {
    MulNonNeg(h, p);
    var q0 := x / y;
    assert q0 * y <= x < q0 * y + y;
    assert (q0 + 1) * y == q0 * y + y;
    HighPartZero(low, h, p);
  }

  lemma DigitTooLarge(x: int, y: int, q: int, mid: int, h: int, p: int, low: int, c: int)
    requires 0 < y <= p && 0 <= mid < p && 0 <= low < p && h < 0 && 0 <= x
    requires mid + h * p == x - q * y && low + c * p == mid + y
    requires x / y <= q <= x / y + 1
    ensures h + c == 0 && low < y && x == (q - 1) * y + low && q >= 1
  {
    NegativeHigh(mid, h, p);
    var q0 := x / y;
    assert q0 * y <= x < q0 * y + y;
    assert (q0 + 1) * y == q0 * y + y;
    assert q == q0 + 1;
    assert (h + c) * p == h * p + c * p;
    HighPartZero(low, h + c, p);
  }

  /** Without a final borrow the estimate was exact and the top word is cleared. */
  lemma FinishExact(u: seq<u64>, v: seq<u64>, n: nat, q: u64, low: seq<u64>, b: u64)
    requires |u| == n + 1 && |v| == n && |low| == n && Val(v) > 0
    requires Subtracted(low, b, u[..n], v, q) && b <= u[n]
    requires Val(u) / Val(v) <= q <= Val(u) / Val(v) + 1
    ensures u[n] == b && Divides(u, v, q, low)
  {
    hide Val, Pow;
    TopWord(u, n);
    ValBound(low);
    ValBound(v);
    var p := Pow(n);
    assert (u[n] - b) * p == u[n] * p - b * p;
    ExactDigit(Val(u), Val(v), q, Val(low), u[n] - b, p);
  }

  /** With a final borrow the estimate was one too large; adding back cancels the borrow. */
  lemma FinishAddBack(u: seq<u64>, v: seq<u64>, n: nat, q: u64, mid: seq<u64>, b: u64, low: seq<u64>, c: u64)
    requires |u| == n + 1 && |v| == n && |mid| == n && |low| == n && Val(v) > 0
    requires Subtracted(mid, b, u[..n], v, q) && u[n] < b
    requires AddedBack(low, c, mid, v)
    requires Val(u) / Val(v) <= q <= Val(u) / Val(v) + 1
    ensures u[n] - b + c == 0 && q >= 1 && Divides(u, v, q - 1, low)
  {
    hide Val, Pow;
    TopWord(u, n);
    ValBound(low);
    ValBound(v);
    ValBound(mid);
    var p := Pow(n);
    assert (u[n] - b) * p == u[n] * p - b * p;
    DigitTooLarge(Val(u), Val(v), q, Val(mid), u[n] - b, p, Val(low), c);
  }

  lemma TopWord(u: seq<u64>, n: nat)
    requires |u| == n + 1
    ensures Val(u) == Val(u[..n]) + u[n] * Pow(n)
  {
    hide Val, Pow;
    assert u[..n] + [u[n]] == u;
    ValSnoc(u[..n], u[n]);
  }

  /** One pass of the outer loop: the exact digit of the leading n+1 words by the divisor. */
  method DivideDigit(un: array<u64>, j: nat, vn: seq<u64>, n: nat, reciprocal: u64) returns (qhat: u64)
    requires n >= 2 && |vn| == n && j + n < un.Length
    requires Normalized(vn[n - 1]) && IsReciprocal(vn[n - 1], reciprocal)
    requires Val(un[j..j + n + 1]) < B * Val(vn)
    modifies un
    ensures Divides(old(un[j..j + n + 1]), vn, qhat, un[j..j + n])
    ensures un[j + n] == 0
    ensures un[..j] == old(un[..j]) && un[j + n + 1..] == old(un[j + n + 1..])
  {
    hide Val, Pow, Top3, UpperEstimate, TooLarge, Leading, Divides, Subtracted, AddedBack, IsReciprocal;
    ghost var orig := un[..];
    ghost var u := un[j..j + n + 1];
    var divisor := U128(vn[n - 1], vn[n - 2]);
    TopWordBound(u, vn, n);
    LeadingNumerator(u, n);
    LeadingDivisor(vn, n);
    var u2: int := un[j + n];
    qhat := EstimateDigit(u2, un[j + n - 1], un[j + n - 2], divisor, reciprocal);
    DigitBounds(Val(u), Val(vn), Pow(n - 2), u[n], u[n - 1], u[n - 2], divisor, qhat);
    var borrow := MultiplySubtract(un, j, vn, n, qhat);
    ghost var mid := un[j..j + n];
    assert vn[..n] == vn && orig[j..j + n] == u[..n];
    un[j + n] := Wrap(u2 - borrow);
    if u2 < borrow {
      ghost var q0 := qhat;
      qhat := Wrap(qhat - 1);
      assert un[j..j + n] == mid;
      var carry := AddBack(un, j, vn, n);
      FinishAddBack(u, vn, n, q0, mid, borrow, un[j..j + n], carry);
      var top: int := un[j + n];
      un[j + n] := Wrap(top + carry);
    } else {
      FinishExact(u, vn, n, qhat, mid, borrow);
      assert un[j..j + n] == mid;
    }
  }

  // ---------- the outer loop ----------

  /** orig = cur + 2^(64*j) * quot * v: the digits above position j are done. */
  ghost predicate Produced(orig: seq<u64>, cur: seq<u64>, j: nat, quot: seq<u64>, v: seq<u64>) {
    Val(orig) == Val(cur) + Pow(j) * (Val(quot) * Val(v))
  }

  lemma ProducedStep(orig: seq<u64>, low: seq<u64>, u: seq<u64>, quot: seq<u64>, v: seq<u64>, q: u64, r: seq<u64>)
    requires Produced(orig, low + u, |low| + 1, quot, v)
    requires Divides(u, v, q, r)
    ensures Produced(orig, low + r, |low|, [q] + quot, v)
  {
    hide Val, Pow;
    ValAppend(low, u);
    ValAppend(low, r);
    ValCons(q, quot);
    PowSucc(|low|);
    ProducedArithmetic(Pow(|low|), Pow(|low| + 1), Val(quot), Val(v), q, Val(r), Val(u), Val([q] + quot));
  }

  lemma ProducedArithmetic(p: int, p1: int, quot: int, v: int, q: int, r: int, u: int, q1: int)
    requires p1 == B * p && u == q * v + r && q1 == q + B * quot
    ensures p * u + p1 * (quot * v) == p * r + p * (q1 * v)
  {
    assert q1 * v == q * v + B * (quot * v);
    assert p1 * (quot * v) == p * (B * (quot * v));
  }

  lemma ProducedStart(orig: seq<u64>, j: nat, v: seq<u64>)
    ensures Produced(orig, orig, j, [], v)
  {
  }

  lemma ProducedEnd(orig: seq<u64>, r: seq<u64>, quot: seq<u64>, v: seq<u64>)
    requires Produced(orig, r, 0, quot, v)
    ensures Val(orig) == Val(quot) * Val(v) + Val(r)
  {
    hide Val;
    EmptyValue();
  }

  /** A remainder below v extended by one low word stays below B*v. */
  lemma ExtendRemainder(w: u64, r: seq<u64>, v: seq<u64>)
    requires Val(r) < Val(v)
    ensures Val([w] + r) < B * Val(v)
  {
    hide Val;
    ValCons(w, r);
  }

  lemma DividesRemainder(u: seq<u64>, v: seq<u64>, q: u64, r: seq<u64>)
    requires Divides(u, v, q, r)
    ensures Val(r) < Val(v)
  {
  }

  /** udivrem_knuth: quotient digits into q, remainder left in the low n words of un. */
  method UdivremKnuth(q: array<u64>, un: array<u64>, m: nat, vn: seq<u64>, n: nat)
    requires q != un && 2 <= n <= m && m < un.Length && m - n < q.Length && |vn| == n
    requires Normalized(vn[n - 1]) && Val(un[m - n + 1..m + 1]) < Val(vn)
    modifies q, un
    ensures Val(old(un[..m + 1])) == Val(q[..m - n + 1]) * Val(vn) + Val(un[..n])
    ensures Val(un[..n]) < Val(vn)
    ensures forall k | n <= k <= m :: un[k] == 0
    ensures q[m - n + 1..] == old(q[m - n + 1..])
  {
    hide Val, Produced, Divides, IsReciprocal, Reciprocal2by1;
    var reciprocal := Reciprocal2by1(vn[n - 1]);
    Reciprocal2by1Correct(vn[n - 1]);
    ghost var orig, q0 := un[..m + 1], q[..];
    ghost var hi := m - n + 1;
    ProducedStart(orig, hi, vn);
    assert un[..hi + n] == orig && q[hi..hi] == [];
    for j := m - n + 1 downto 0
      invariant Produced(orig, un[..j + n], j, q[j..hi], vn)
      invariant Val(un[j..j + n]) < Val(vn)
      invariant forall k | j + n <= k <= m :: un[k] == 0
      invariant q[hi..] == q0[hi..]
    {
      ghost var low, u, quot := un[..j], un[j..j + n + 1], q[j + 1..hi];
      assert u == [un[j]] + un[j + 1..j + 1 + n];
      ExtendRemainder(un[j], un[j + 1..j + 1 + n], vn);
      assert un[..j + 1 + n] == low + u;
      var qhat := DivideDigit(un, j, vn, n, reciprocal);
      ProducedStep(orig, low, u, quot, vn, qhat, un[j..j + n]);
      DividesRemainder(u, vn, qhat, un[j..j + n]);
      assert un[..j + n] == low + un[j..j + n];
      q[j] := qhat;
      assert q[j..hi] == [qhat] + quot;
    }
    ProducedEnd(orig, un[..n], q[..hi], vn);
    assert un[0..n] == un[..n] && q[0..hi] == q[..hi];
  }
}
