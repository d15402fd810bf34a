/** Left-normalization of division arguments (libs/eosio.evm/external/intx/div.hpp). */
module Normalization {
  import opened MachineWord
  import opened Products
  import opened WordVector
  import opened PowersOfTwo

  /** Number of leading zero bits of a non-zero word. */
  function Clz(x: u64): (s: nat)
    requires x != 0
    ensures HALF <= x * Pow2(s) < B
    decreases B - x
  {
    if x >= HALF then 0
    else
      var s := Clz(2 * x);
      assert x * Pow2(s + 1) == 2 * x * Pow2(s);
      s + 1
  }

  lemma Pow2Large(s: nat)
    requires s >= 64
    ensures Pow2(s) >= B
  {
    Pow2Add(64, s - 64);
    Pow2Of64();
    MulLe(1, Pow2(s - 64), B);
  }

  /** The shift and its complement: 2^s * 2^(64-s) = 2^64. */
  lemma ShiftFits(x: u64)
    requires x != 0
    ensures Clz(x) <= 63
    ensures Pow2(Clz(x)) * Pow2(64 - Clz(x)) == B
    ensures Pow2(Clz(x)) <= HALF
  {
    hide Pow2;
    var s := Clz(x);
    MulLe(1, x, Pow2(s));
    if s >= 64 { Pow2Large(s); }
    Pow2Add(s, 64 - s);
    Pow2Of64();
    Pow2Add(1, 63 - s);
    Pow2Of1();
    assert Pow2(s) * (2 * Pow2(63 - s)) == 2 * (Pow2(63 - s) * Pow2(s));
    MulLe(1, Pow2(63 - s), Pow2(s));
  }

  /** Only one shift brings the top bit of x into place. */
  lemma ClzUnique(x: u64, r: nat)
    requires x != 0 && HALF <= x * Pow2(r) < B
    ensures r == Clz(x)
  {
    hide Pow2;
    if r < Clz(x) { LongerShift(x, r, Clz(x)); }
    if Clz(x) < r { LongerShift(x, Clz(x), r); }
  }

  lemma LongerShift(x: u64, r: nat, s: nat)
    requires HALF <= x * Pow2(r) && r < s
    ensures B <= x * Pow2(s)
  {
    hide Pow2;
    var p, q := Pow2(r), Pow2(s - r - 1);
    Pow2Add(r, s - r);
    Pow2Add(1, s - r - 1);
    Pow2Of1();
    assert x * (p * (2 * q)) == 2 * (x * p) * q;
    MulLe2(2 * HALF, 1, 2 * (x * p), q);
  }

  /** What halving the word from the top has left: x is x0 without its k lowest bits. */
  ghost predicate Halved(x0: u64, x: nat, k: nat) {
    x * Pow2(k) <= x0 < x * Pow2(k) + Pow2(k) && (x0 != 0 ==> x != 0)
  }

  lemma HalvedFurther(x0: u64, x: nat, k: nat, s: nat, hi: nat)
    requires Halved(x0, x, k) && hi * Pow2(s) <= x < hi * Pow2(s) + Pow2(s) && hi != 0
    ensures Halved(x0, hi, k + s)
  {
    hide Pow2;
    Pow2Add(k, s);
    HalvedBounds(x0, x, Pow2(k), Pow2(s), hi, x - hi * Pow2(s));
  }

  lemma HalvedBounds(x0: int, x: int, p: int, q: int, h: int, r: int)
    requires x * p <= x0 < x * p + p && x == h * q + r && 0 <= r < q && 0 <= p
    ensures h * (p * q) <= x0 < h * (p * q) + p * q
  {
    MulNonNeg(r, p);
    MulLe(r + 1, q, p);
    var hpq := h * (p * q);
    assert x * p == hpq + r * p by { assert (h * q) * p == h * (p * q); }
    assert (r + 1) * p == r * p + p;
  }

  lemma HalfOfWidth(x: nat, i: nat, hi: nat)
    requires x < Pow2(Pow2(i + 1)) && hi * Pow2(Pow2(i)) <= x
    ensures hi < Pow2(Pow2(i))
  {
    var q := Pow2(Pow2(i));
    assert Pow2(i + 1) == Pow2(i) + Pow2(i);
    Pow2Add(Pow2(i), Pow2(i));
    MulLtCancel(hi, q, q);
  }

  lemma TopBit(x0: u64, k: nat)
    requires x0 != 0 && k <= 63 && Halved(x0, 1, k)
    ensures Clz(x0) == 63 - k
  {
    hide Pow2;
    var p, q := Pow2(k), Pow2(63 - k);
    Pow2Add(k, 63 - k);
    Pow2Add(1, 63);
    Pow2Of1();
    Pow2Of64();
    MulLe(p, x0, q);
    MulLt(x0, 2 * p, q);
    assert (2 * p) * q == 2 * (p * q);
    ClzUnique(x0, 63 - k);
  }

  lemma NothingHalved(x0: u64)
    ensures Halved(x0, x0, 0)
  {
  }

  lemma NonZeroLeft(x0: u64, x: nat, k: nat)
    requires Halved(x0, x, k) && x < 2 && x0 != 0
    ensures x == 1
  {
  }

  lemma ZeroLeft(x: nat, k: nat, s: nat, hi: nat)
    requires Halved(0, x, k) && hi * Pow2(s) <= x
    ensures x == 0 && hi == 0
  {
    hide Pow2;
    if x > 0 { MulLe(1, x, Pow2(k)); }
    if hi > 0 { MulLe(1, hi, Pow2(s)); }
  }

  /** clz_generic: whether the upper half of what is left is zero, from 32 bits down to one. */
  method ClzGeneric(x0: u64) returns (r: nat)
    ensures r == if x0 == 0 then 64 else Clz(x0)
  {
    hide Pow2, Clz, FloorDiv, Halved;
    var x: nat := x0;
    var n: int := 64;
    Pow2Of1();
    Pow2Of64();
    SixtyFour();
    NothingHalved(x0);
    for i := 6 downto 0
      invariant 0 <= 64 - n <= 64 - Pow2(i)
      invariant x < Pow2(Pow2(i)) && Halved(x0, x, 64 - n)
      invariant x0 == 0 ==> n == 64 && x == 0
    {
      var s := Pow2(i);
      var hi := FloorDiv(x, Pow2(s));
      Pow2Add(1, i);
      HalfOfWidth(x, i, hi);
      if x0 == 0 { ZeroLeft(x, 64 - n, s, hi); }
      if hi != 0 {
        HalvedFurther(x0, x, 64 - n, s, hi);
        n := n - s;
        x := hi;
      }
    }
    if x0 != 0 {
      NonZeroLeft(x0, x, 64 - n);
      TopBit(x0, 64 - n);
    }
    r := n - x;
  }

  lemma SixtyFour()
    ensures Pow2(6) == 64
  {
  }

  /** p = 2^s and its complement hp = 2^(64-s). */
  ghost predicate Complementary(p: int, hp: int) {
    p >= 1 && hp >= 1 && p * hp == B
  }

  /** Shifting one word left: the bits that leave are w/hp, the ones that stay are a multiple of p. */
  lemma SplitWord(w: u64, p: int, hp: int)
    requires Complementary(p, hp)
    ensures w * p == Wrap(w * p) + B * (w / hp)
    ensures Wrap(w * p) <= B - p && 0 <= w / hp < p
    ensures Wrap(w * p) == (w % hp) * p
  {
    var a, b := w / hp, w % hp;
    assert w == hp * a + b;
    SplitProduct(w, a, b, p, hp);
    WrapShift(b * p, a);
    if p <= a { MulLe(p, a, hp); }
  }

  lemma SplitProduct(w: u64, a: int, b: int, p: int, hp: int)
    requires Complementary(p, hp) && w == hp * a + b && 0 <= b < hp
    ensures w * p == b * p + a * B && 0 <= b * p <= B - p
  {
    assert w * p == (p * hp) * a + b * p;
    MulNonNeg(b, p);
    MulLe(b, hp - 1, p);
    assert (hp - 1) * p == B - p;
  }

  /** Bits of the word below that move into the word above. */
  ghost function CarryIn(s: seq<u64>, i: nat, hp: int): int
    requires hp >= 1 && i <= |s|
  {
    if i == 0 then 0 else s[i - 1] / hp
  }

  /** Word i of s * p. */
  ghost function ShiftedWord(s: seq<u64>, i: nat, p: int, hp: int): int
    requires hp >= 1 && i < |s|
  {
    Wrap(s[i] * p) + CarryIn(s, i, hp)
  }

  ghost predicate ShiftedBy(t: seq<u64>, s: seq<u64>, k: nat, p: int, hp: int)
    requires hp >= 1
  {
    k <= |s| && k <= |t| && forall i | 0 <= i < k :: t[i] == ShiftedWord(s, i, p, hp)
  }

  lemma {:induction false} ShiftedValue(t: seq<u64>, s: seq<u64>, k: nat, p: int, hp: int)
    requires Complementary(p, hp) && ShiftedBy(t, s, k, p, hp)
    ensures Val(t[..k]) + Pow(k) * CarryIn(s, k, hp) == Val(s[..k]) * p
  {
    hide Val, Pow, Wrap;
    EmptyValue();
    if k == 0 {
      assert t[..0] == [] && s[..0] == [];
    } else {
      ShiftedValue(t, s, k - 1, p, hp);
      assert t[..k] == t[..k - 1] + [t[k - 1]] && s[..k] == s[..k - 1] + [s[k - 1]];
      ValSnoc(t[..k - 1], t[k - 1]);
      ValSnoc(s[..k - 1], s[k - 1]);
      PowSucc(k - 1);
      SplitWord(s[k - 1], p, hp);
      ShiftArithmetic(Pow(k - 1), Pow(k), p, s[k - 1], s[k - 1] / hp, Wrap(s[k - 1] * p), CarryIn(s, k - 1, hp),
                      Val(s[..k - 1]));
    }
  }

  lemma ShiftArithmetic(q: int, q1: int, p: int, w: int, carry: int, kept: int, carryIn: int, low: int)
    requires q1 == B * q && w * p == kept + B * carry
    ensures (low * p - q * carryIn) + q * (kept + carryIn) + q1 * carry == (low + q * w) * p
  {
    assert q1 * carry == q * (B * carry);
    assert q * (w * p) == q * (kept + B * carry);
  }

  /** The shifting loop of normalize: top word first, the lowest word separately. */
  method ShiftLeftInto(dst: array<u64>, src: seq<u64>, shift: nat)
    requires 1 <= |src| <= dst.Length && shift <= 63
    requires Complementary(Pow2(shift), Pow2(64 - shift))
    modifies dst
    ensures ShiftedBy(dst[..], src, |src|, Pow2(shift), Pow2(64 - shift))
    ensures dst[|src|..] == old(dst[|src|..])
  {
    hide Pow2, Wrap;
    var p, hp := Pow2(shift), Pow2(64 - shift);
    var i := |src| - 1;
    while i > 0
      invariant 0 <= i < |src|
      invariant forall k | i < k < |src| :: dst[k] == ShiftedWord(src, k, p, hp)
      invariant dst[|src|..] == old(dst[|src|..])
    {
      SplitWord(src[i], p, hp);
      SplitWord(src[i - 1], p, hp);
      // the two operands of the source's bitwise or share no bit: one is below p, the other a multiple of p
      dst[i] := Wrap(src[i] * p) + src[i - 1] / hp;
      i := i - 1;
    }
    dst[0] := Wrap(src[0] * p);
  }

  // ---------- shifting the remainder back ----------

  /** A word shifted down by p with the bits of the word above moving in. */
  function ShiftedDown(w: u64, above: u64, p: int, hp: int): int
    requires p >= 1
  {
    w / p + Wrap(above * hp)
  }

  ghost predicate ShiftedBack(t: seq<u64>, s: seq<u64>, k: nat, p: int, hp: int)
    requires p >= 1
  {
    k < |s| && k <= |t| && forall i | 0 <= i < k :: t[i] == ShiftedDown(s[i], s[i + 1], p, hp)
  }

  lemma {:induction false} ShiftedBackValue(t: seq<u64>, s: seq<u64>, k: nat, p: int, hp: int)
    requires Complementary(p, hp) && ShiftedBack(t, s, k, p, hp)
    ensures p * Val(t[..k]) == Val(s[..k]) - s[0] % p + Pow(k) * (s[k] % p)
  {
    hide Val, Pow, ShiftedDown, Complementary;
    ComplementaryMeans(p, hp);
    EmptyValue();
    if k == 0 {
      assert t[..0] == [] && s[..0] == [];
    } else {
      ShiftedBackValue(t, s, k - 1, p, hp);
      assert t[..k] == t[..k - 1] + [t[k - 1]] && s[..k] == s[..k - 1] + [s[k - 1]];
      ValSnoc(t[..k - 1], t[k - 1]);
      ValSnoc(s[..k - 1], s[k - 1]);
      PowSucc(k - 1);
      BackStep(Pow(k - 1), Pow(k), p, hp, s[k - 1], s[k], t[k - 1],
               Val(t[..k - 1]), Val(t[..k]), Val(s[..k - 1]), Val(s[..k]), s[0] % p);
    }
  }

  lemma BackStep(q: int, q1: int, p: int, hp: int, w: u64, above: u64, tw: u64, vt: int, vt1: int, vs: int, vs1: int, r0: int)
    requires Complementary(p, hp) && q1 == B * q && tw == ShiftedDown(w, above, p, hp)
    requires p * vt == vs - r0 + q * (w % p)
    requires vt1 == vt + q * tw && vs1 == vs + q * w
    ensures p * vt1 == vs1 - r0 + q1 * (above % p)
  {
    hide Wrap;
    Swapped(p, hp);
    SplitWord(above, hp, p);
    BackArithmetic(q, q1, p, hp, w, w / p, w % p, above % p, tw, vt, vt1, vs, vs1, r0);
  }

  lemma ComplementaryMeans(p: int, hp: int)
    requires Complementary(p, hp)
    ensures p >= 1 && hp >= 1 && p * hp == B
  {
  }

  lemma Swapped(p: int, hp: int)
    requires Complementary(p, hp)
    ensures Complementary(hp, p)
  {
  }

  lemma BackArithmetic(q: int, q1: int, p: int, hp: int, w: int, quot: int, rem: int, next: int, tw: int,
                       vt: int, vt1: int, vs: int, vs1: int, r0: int)
    requires q1 == B * q && w == quot * p + rem && p * hp == B
    requires p * vt == vs - r0 + q * rem
    requires tw == quot + next * hp && vt1 == vt + q * tw && vs1 == vs + q * w
    ensures p * vt1 == vs1 - r0 + q1 * next
  {
    assert p * (next * hp) == B * next;
    assert p * tw == (w - rem) + B * next;
    assert p * vt1 == p * vt + q * (p * tw);
    assert q * ((w - rem) + B * next) == q * w - q * rem + q1 * next;
  }

  // ---------- normalize ----------

  /** The words above k are zero and word k-1 is not. */
  predicate Significant(s: seq<u64>, k: nat) {
    && k <= |s|
    && (forall i | k <= i < |s| :: s[i] == 0)
    && (k > 0 ==> s[k - 1] != 0)
  }

  method CountWords(s: seq<u64>) returns (k: nat)
    ensures Significant(s, k)
  {
    k := |s|;
    while k > 0 && s[k - 1] == 0
      invariant 0 <= k <= |s| && forall i | k <= i < |s| :: s[i] == 0
    {
      k := k - 1;
    }
  }

  lemma SignificantValue(s: seq<u64>, k: nat)
    requires Significant(s, k)
    ensures Val(s) == Val(s[..k])
    ensures Val(s) < Pow(k)
    ensures k > 0 ==> Pow(k - 1) <= Val(s)
    ensures k == 0 ==> Val(s) == 0
  {
    hide Val, Pow;
    EmptyValue();
    ValSplit(s, k);
    ValZeros(s[k..]);
    ValBound(s[..k]);
    assert k == 0 ==> s[..k] == [];
    if k > 0 {
      assert s[..k] == s[..k - 1] + [s[k - 1]];
      ValSnoc(s[..k - 1], s[k - 1]);
      MulLe(1, s[k - 1], Pow(k - 1));
    }
  }

  /** What normalize promises: both operands scaled by 2^shift, the divisor's top bit set. */
  ghost predicate NormalizedArgs(u: seq<u64>, v: seq<u64>, un: seq<u64>, vn: seq<u64>, m: nat, n: nat, shift: nat) {
    && |u| == |v| && |un| == |u| + 1 && |vn| == |v|
    && Significant(u, m) && Significant(v, n) && n >= 1
    && shift <= 63 && Complementary(Pow2(shift), Pow2(64 - shift))
    && Val(un[..m + 1]) == Val(u) * Pow2(shift)
    && Val(vn[..n]) == Val(v) * Pow2(shift)
    && HALF <= vn[n - 1] && un[m] < HALF
    && forall i | m < i < |un| :: un[i] == 0
  }

  lemma NormalizedNumerator(u: seq<u64>, un: seq<u64>, m: nat, p: int, hp: int)
    requires Complementary(p, hp) && p <= HALF && Significant(u, m) && |un| == |u| + 1
    requires ShiftedBy(un, u, |u|, p, hp) && un[|u|] == CarryIn(u, |u|, hp)
    ensures Val(un[..m + 1]) == Val(u) * p
    ensures un[m] < HALF && forall i | m < i < |un| :: un[i] == 0
  {
    hide Val, Pow;
    ShiftedValue(un, u, m, p, hp);
    TopCarry(u, un, m, p, hp);
    assert un[..m + 1] == un[..m] + [un[m]];
    ValSnoc(un[..m], un[m]);
    SignificantValue(u, m);
  }

  /** Above the significant words only the carry is left. */
  lemma TopCarry(u: seq<u64>, un: seq<u64>, m: nat, p: int, hp: int)
    requires Complementary(p, hp) && p <= HALF && Significant(u, m) && |un| == |u| + 1
    requires ShiftedBy(un, u, |u|, p, hp) && un[|u|] == CarryIn(u, |u|, hp)
    ensures un[m] == CarryIn(u, m, hp) && un[m] < HALF && forall i | m < i < |un| :: un[i] == 0
  {
    if m > 0 { SplitWord(u[m - 1], p, hp); }
  }

  lemma NormalizedDivisor(v: seq<u64>, vn: seq<u64>, n: nat, p: int, hp: int)
    requires Complementary(p, hp) && Significant(v, n) && n >= 1 && |vn| == |v|
    requires HALF <= v[n - 1] * p < B
    requires ShiftedBy(vn, v, |v|, p, hp)
    ensures Val(vn[..n]) == Val(v) * p && HALF <= vn[n - 1]
  {
    hide Val, Pow;
    ShiftedValue(vn, v, n, p, hp);
    SplitWord(v[n - 1], p, hp);
    assert v[n - 1] / hp == 0;
    if n > 1 { SplitWord(v[n - 2], p, hp); }
    SignificantValue(v, n);
  }

  method Normalize(u: seq<u64>, v: seq<u64>) returns (un: array<u64>, vn: array<u64>, m: nat, n: nat, shift: nat)
    requires |u| == |v| && Val(v) != 0
    ensures fresh(un) && fresh(vn) && un != vn
    ensures NormalizedArgs(u, v, un[..], vn[..], m, n, shift)
  {
    hide Val, Pow2, Wrap, Complementary, ShiftedBy;
    m := CountWords(u);
    n := CountWords(v);
    SignificantValue(v, n);
    shift := ClzGeneric(v[n - 1]);
    ShiftFits(v[n - 1]);
    ComplementaryShift(shift);
    un, vn := new u64[|u| + 1], new u64[|v|];
    if shift != 0 {
      ShiftLeftInto(vn, v, shift);
      SplitWord(u[|u| - 1], Pow2(shift), Pow2(64 - shift));
      un[|u|] := u[|u| - 1] / Pow2(64 - shift);
      ShiftLeftInto(un, u, shift);
      assert un[|u|..][0] == CarryIn(u, |u|, Pow2(64 - shift));
    } else {
      un[|u|] := 0;
      CopyInto(un, u);
      CopyInto(vn, v);
      Pow2Of64();
      assert un[|u|..][0] == CarryIn(u, |u|, Pow2(64));
    }
    NormalizedNumerator(u, un[..], m, Pow2(shift), Pow2(64 - shift));
    NormalizedDivisor(v, vn[..], n, Pow2(shift), Pow2(64 - shift));
  }

  lemma ComplementaryShift(shift: nat)
    requires shift <= 64 && Pow2(shift) * Pow2(64 - shift) == B
    ensures Complementary(Pow2(shift), Pow2(64 - shift))
  {
  }

  /** Copying is the shift by zero bits. */
  method CopyInto(dst: array<u64>, src: seq<u64>)
    requires |src| <= dst.Length
    modifies dst
    ensures ShiftedBy(dst[..], src, |src|, Pow2(0), Pow2(64))
    ensures dst[|src|..] == old(dst[|src|..])
  {
    hide Pow2;
    Pow2Of64();
    Pow2Of1();
    for i := 0 to |src|
      invariant forall k | 0 <= k < i :: dst[k] == ShiftedWord(src, k, 1, B)
      invariant dst[|src|..] == old(dst[|src|..])
    {
      dst[i] := src[i];
    }
  }
}
