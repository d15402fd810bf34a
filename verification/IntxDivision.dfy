/** Full division of equally sized word vectors: udivrem of libs/eosio.evm/external/intx/base.hpp. */
module IntxDivision {
  import opened MachineWord
  import opened Products
  import opened Uint128
  import opened WordVector
  import opened PowersOfTwo
  import opened Normalization
  import opened KnuthDivision

  /** q and r are the quotient and the remainder of u by v, as vectors of u's width. */
  ghost predicate QuotRem(u: seq<u64>, v: seq<u64>, q: seq<u64>, r: seq<u64>) {
    |q| == |u| && |r| == |u| && Val(u) == Val(q) * Val(v) + Val(r) && Val(r) < Val(v)
  }

  lemma QuotRemIsDivision(u: seq<u64>, v: seq<u64>, q: seq<u64>, r: seq<u64>)
    requires QuotRem(u, v, q, r)
    ensures Val(v) != 0 && Val(q) == Val(u) / Val(v) && Val(r) == Val(u) % Val(v)
  {
    hide Val;
    DivModUnique(Val(u), Val(v), Val(q), Val(r));
  }

  /** Undoing the normalization: the scaled remainder is an exact multiple of the scale. */
  lemma Unscale(u: int, v: int, p: int, q: int, rp: int)
    requires p >= 1 && u * p == q * (v * p) + rp && 0 <= rp < v * p
    ensures rp == (u - q * v) * p && rp % p == 0
    ensures 0 <= u - q * v < v
  {
    var r := u - q * v;
    assert q * (v * p) == (q * v) * p;
    assert rp == r * p;
    MulLtCancel(r, v, p);
    MulLtCancel(-1, r, p);
    DivModUnique(rp, p, r, 0);
  }

  lemma ZeroTop(s: seq<u64>, k: nat)
    requires k <= |s| && forall i | k <= i < |s| :: s[i] == 0
    ensures Val(s) == Val(s[..k])
  {
    hide Val;
    ValSplit(s, k);
    ValZeros(s[k..]);
  }

  /** A vector that is shorter than the divisor is its own remainder. */
  lemma ShorterIsSmaller(u: seq<u64>, v: seq<u64>, m: nat, n: nat)
    requires Significant(u, m) && Significant(v, n) && m < n
    ensures Val(u) < Val(v)
  {
    hide Val, Pow;
    SignificantValue(u, m);
    SignificantValue(v, n);
    PowAdd(m, n - 1 - m);
    MulLe(1, Pow(n - 1 - m), Pow(m));
  }

  function Zeros(n: nat): (z: seq<u64>)
    ensures |z| == n && forall i | 0 <= i < n :: z[i] == 0
  {
    seq(n, i => 0)
  }

  lemma Finish(u: seq<u64>, v: seq<u64>, q: seq<u64>, r: seq<u64>, p: int, rp: int)
    requires |q| == |u| && |r| == |u| && p >= 1
    requires Val(u) * p == Val(q) * (Val(v) * p) + rp && 0 <= rp < Val(v) * p
    requires Val(r) == rp / p
    ensures QuotRem(u, v, q, r)
  {
    hide Val;
    Unscale(Val(u), Val(v), p, Val(q), rp);
    DivModUnique(rp, p, Val(u) - Val(q) * Val(v), 0);
  }

  // ---------- remainders shifted back ----------

  /** x >> shift for a two-word value. */
  function ShiftRight128(x: U128, p: int, hp: int): (r: U128)
    requires p >= 1 && hp >= 1 && p * hp == B
    ensures r.Value() == x.Value() / p
  {
    hide Wrap, Complementary;
    Complement(p, hp);
    RightWordFits(x.lo, x.hi, p, hp);
    SplitWord(x.hi, hp, p);
    ShiftRightValue(x.hi, x.lo, p, hp);
    QuotientBelow(x.hi, p);
    U128(x.hi / p, x.lo / p + Wrap(x.hi * hp))
  }

  lemma Complement(p: int, hp: int)
    requires p >= 1 && hp >= 1 && p * hp == B
    ensures Complementary(p, hp) && Complementary(hp, p)
  {
  }

  lemma QuotientBelow(w: u64, p: int)
    requires p >= 1
    ensures 0 <= w / p <= w
  {
    if w / p > w { MulLe(1, p, w / p); }
  }

  lemma LowPart(lo: u64, p: int, hp: int)
    requires p >= 1 && p * hp == B
    ensures lo / p <= hp - 1
  {
    MulLtCancel(lo / p, hp, p);
  }

  lemma ShiftRightValue(hi: u64, lo: u64, p: int, hp: int)
    requires p >= 1 && p * hp == B
    ensures hi / p * B + (lo / p + (hi % p) * hp) == (hi * B + lo) / p
  {
    var x := hi / p * B + (lo / p + (hi % p) * hp);
    var c := hi % p;
    assert p * (hi / p * B) == (hi - c) * B;
    assert p * (c * hp) == c * B;
    assert p * (lo / p) == lo - lo % p;
    assert x * p == hi * B + lo - lo % p;
    DivModUnique(hi * B + lo, p, x, lo % p);
  }

  lemma OneWord(w: u64, n: nat)
    ensures Val([w] + Zeros(n)) == w
  {
    ValCons(w, Zeros(n));
    ValZeros(Zeros(n));
  }

  lemma TwoWords(x: U128, n: nat)
    ensures Val([x.lo, x.hi] + Zeros(n)) == x.Value()
  {
    assert [x.lo, x.hi] + Zeros(n) == [x.lo] + ([x.hi] + Zeros(n));
    ValCons(x.lo, [x.hi] + Zeros(n));
    OneWord(x.hi, n);
  }

  /** The low word of a multiple of p is a multiple of p. */
  lemma LowWordMultiple(s: seq<u64>, p: int, hp: int)
    requires |s| > 0 && p >= 1 && p * hp == B && Val(s) % p == 0
    ensures s[0] % p == 0
  {
    hide Val;
    assert s == [s[0]] + s[1..];
    ValCons(s[0], s[1..]);
    var k := Val(s) / p;
    var y := Val(s[1..]);
    assert B * y == p * (hp * y);
    assert s[0] == (k - hp * y) * p;
    DivModUnique(s[0], p, k - hp * y, 0);
  }

  lemma ShiftedRemainder(rw: seq<u64>, un: seq<u64>, n: nat, p: int, hp: int)
    requires Complementary(p, hp) && 1 <= n && ShiftedBack(rw, un, n, p, hp)
    requires un[n] == 0 && Val(un[..n]) % p == 0
    ensures Val(rw[..n]) == Val(un[..n]) / p
  {
    hide Val, Pow, Wrap;
    LowWordMultiple(un[..n], p, hp);
    ShiftedBackValue(rw, un, n, p, hp);
    assert Pow(n) * (un[n] % p) == 0;
    DivModUnique(Val(un[..n]), p, Val(rw[..n]), 0);
  }

  /** The remainder loop of udivrem after Knuth's division. */
  method ShiftRemainder(un: array<u64>, n: nat, numWords: nat, shift: nat) returns (rw: array<u64>)
    requires 1 <= n <= numWords && numWords < un.Length
    requires shift <= 63 && Complementary(Pow2(shift), Pow2(64 - shift))
    requires un[n] == 0 && Val(un[..n]) % Pow2(shift) == 0
    ensures fresh(rw) && rw.Length == numWords
    ensures Val(rw[..]) == Val(un[..n]) / Pow2(shift)
  {
    hide Val, Pow2, Wrap, ShiftedDown, Complementary;
    var p, hp := Pow2(shift), Pow2(64 - shift);
    RightWordFits(0, 0, p, hp);
    rw := new u64[numWords](i => 0);
    for i := 0 to n
      invariant forall k | 0 <= k < i :: rw[k] == ShiftedDown(un[k], un[k + 1], p, hp)
      invariant forall k | i <= k < numWords :: rw[k] == 0
    {
      RightWordFits(un[i], un[i + 1], p, hp);
      if shift != 0 {
        rw[i] := ShiftedDown(un[i], un[i + 1], p, hp);
      } else {
        NoShift(un[i], un[i + 1]);
        rw[i] := un[i];
      }
    }
    ShiftedRemainder(rw[..], un[..], n, p, hp);
    assert un[..][..n] == un[..n];
    ZeroTop(rw[..], n);
  }

  lemma RightWordFits(w: u64, above: u64, p: int, hp: int)
    requires Complementary(p, hp)
    ensures p >= 1 && 0 <= ShiftedDown(w, above, p, hp) < B
  {
    hide Wrap, Complementary;
    Swapped(p, hp);
    SplitWord(above, hp, p);
    ComplementaryMeans(p, hp);
    LowPart(w, p, hp);
    NonNegativeQuotient(w, p);
  }

  lemma NonNegativeQuotient(w: u64, p: int)
    requires p >= 1
    ensures 0 <= w / p
  {
  }

  lemma NoShift(w: u64, above: u64)
    ensures Pow2(0) == 1 && Pow2(64) == B
    ensures ShiftedDown(w, above, 1, B) == w
  {
    Pow2Of64();
    WrapShift(0, above);
  }

  // ---------- udivrem ----------

  /** Quotient and remainder for every width and every non-zero divisor. */
  method Udivrem(u: seq<u64>, v: seq<u64>) returns (q: seq<u64>, r: seq<u64>)
    requires |u| == |v| && Val(v) != 0
    ensures QuotRem(u, v, q, r)
    ensures Val(q) == Val(u) / Val(v) && Val(r) == Val(u) % Val(v)
  {
    hide Val, Pow2, Complementary, Wrap;
    var un, vn, m, n, shift := Normalize(u, v);
    if n > m {
      q, r := Zeros(|u|), u;
      ShorterIsSmaller(u, v, m, n);
      ValZeros(q);
    } else if n == 1 {
      q, r := DivideByOne(u, v, un, vn, m, n, shift);
    } else if n == 2 {
      q, r := DivideByTwo(u, v, un, vn, m, n, shift);
    } else {
      q, r := DivideByMany(u, v, un, vn, m, n, shift);
    }
    QuotRemIsDivision(u, v, q, r);
  }

  method DivideByOne(u: seq<u64>, v: seq<u64>, un: array<u64>, vn: array<u64>, m: nat, n: nat, shift: nat)
    returns (q: seq<u64>, r: seq<u64>)
    requires un != vn && NormalizedArgs(u, v, un[..], vn[..], m, n, shift) && n == 1 <= m
    modifies un
    ensures QuotRem(u, v, q, r)
  {
    hide Val, Pow2, Complementary;
    assert un[..][..m + 1] == un[..m + 1] && vn[..][..1] == [vn[0]];
    SingleWord(vn[0]);
    var d := vn[0];
    var rem := UdivremBy1(un, m, d);
    q, r := un[..|u|], [rem / Pow2(shift)] + Zeros(|u| - 1);
    assert q[..m] == un[..m];
    ZeroTop(q, m);
    OneWord(rem / Pow2(shift), |u| - 1);
    Finish(u, v, q, r, Pow2(shift), rem);
  }

  lemma SingleWord(w: u64)
    ensures Val([w]) == w
  {
    ValCons(w, []);
  }

  method DivideByTwo(u: seq<u64>, v: seq<u64>, un: array<u64>, vn: array<u64>, m: nat, n: nat, shift: nat)
    returns (q: seq<u64>, r: seq<u64>)
    requires un != vn && NormalizedArgs(u, v, un[..], vn[..], m, n, shift) && n == 2 <= m
    modifies un
    ensures QuotRem(u, v, q, r)
  {
    hide Val, Pow2, Complementary, ShiftRight128;
    assert un[..][..m + 1] == un[..m + 1] && vn[..][..2] == [vn[0], vn[1]] + Zeros(0);
    var d := U128(vn[1], vn[0]);
    TwoWords(d, 0);
    var rem := UdivremBy2(un, m, d);
    ComplementaryParts(shift);
    var low := ShiftRight128(rem, Pow2(shift), Pow2(64 - shift));
    q, r := un[..|u|], [low.lo, low.hi] + Zeros(|u| - 2);
    assert q[..m - 1] == un[..m - 1];
    ZeroTop(q, m - 1);
    TwoWords(low, |u| - 2);
    ValueBounds(rem);
    Finish(u, v, q, r, Pow2(shift), rem.Value());
  }

  lemma ComplementaryParts(shift: nat)
    requires shift <= 64 && Complementary(Pow2(shift), Pow2(64 - shift))
    ensures Pow2(shift) * Pow2(64 - shift) == B
  {
  }

  /** The top n words of the normalized numerator are below the divisor. */
  lemma TopBelowDivisor(un: seq<u64>, vn: seq<u64>, m: nat, n: nat)
    requires 2 <= n <= m < |un| && n <= |vn|
    requires un[m] < HALF <= vn[n - 1]
    ensures Val(un[m - n + 1..m + 1]) < Val(vn[..n])
  {
    hide Val, Pow;
    var t := un[m - n + 1..m + 1];
    LeadingDivisor(t, n);
    LeadingDivisor(vn[..n], n);
    MulLe(t[n - 1] + 1, vn[n - 1], Pow(n - 1));
  }

  method DivideByMany(u: seq<u64>, v: seq<u64>, un: array<u64>, vn: array<u64>, m: nat, n: nat, shift: nat)
    returns (q: seq<u64>, r: seq<u64>)
    requires un != vn && NormalizedArgs(u, v, un[..], vn[..], m, n, shift) && 3 <= n <= m
    modifies un
    ensures QuotRem(u, v, q, r)
  {
    hide Val, Pow2, Complementary;
    assert un[..][..m + 1] == un[..m + 1] && vn[..][..n] == vn[..n];
    TopBelowDivisor(un[..], vn[..], m, n);
    assert un[..][m - n + 1..m + 1] == un[m - n + 1..m + 1];
    var qw := new u64[|u|](i => 0);
    UdivremKnuth(qw, un, m, vn[..n], n);
    ghost var rem := Val(un[..n]);
    ZeroTop(qw[..], m - n + 1);
    assert qw[..][..m - n + 1] == qw[..m - n + 1];
    Unscale(Val(u), Val(v), Pow2(shift), Val(qw[..]), rem);
    var rw := ShiftRemainder(un, n, |u|, shift);
    q, r := qw[..], rw[..];
    Finish(u, v, q, r, Pow2(shift), rem);
  }
}
