/**
 The recursive integers of libs/eosio.evm/external/intx/intx.hpp: a value of level k is a 64-bit limb
 (k = 0) or two halves of level k-1; level 1 is uint128, level 2 uint256, level 3 uint512.
 */
module IntxWide {
  import opened MachineWord
  import opened Products
  import Uint128
  import opened WordVector
  import opened IntxDivision

  datatype Wide = Limb(word: u64) | Pair(hi: Wide, lo: Wide)

  /** x is a uint of 64 * 2^k bits. */
  predicate Level(x: Wide, k: nat) {
    match x
    case Limb(_) => k == 0
    case Pair(hi, lo) => k > 0 && Level(hi, k - 1) && Level(lo, k - 1)
  }

  /** 2^(64 * 2^k), the modulus of level k. */
  function Mod(k: nat): (r: nat)
    ensures r >= 1
  {
    if k == 0 then B else Mod(k - 1) * Mod(k - 1)
  }

  function Value(x: Wide, k: nat): (r: nat)
    requires Level(x, k)
  {
    match x
    case Limb(w) => w
    case Pair(hi, lo) => Value(hi, k - 1) * Mod(k - 1) + Value(lo, k - 1)
  }

  lemma {:induction false} ValueBound(x: Wide, k: nat)
    requires Level(x, k)
    ensures Value(x, k) < Mod(k)
  {
    if x.Limb? {
    } else {
      ValueBound(x.hi, k - 1);
      ValueBound(x.lo, k - 1);
      PairBound(Value(x.hi, k - 1), Value(x.lo, k - 1), Mod(k - 1));
    }
  }

  lemma PairBound(h: int, l: int, m: int)
    requires 0 <= h < m && 0 <= l < m
    ensures h * m + l < m * m
  {
    MulLe(h + 1, m, m);
  }

  /** The conversion of a bool: zero or one at level k. */
  function FromBit(c: bool, k: nat): (x: Wide)
    ensures Level(x, k) && Value(x, k) == if c then 1 else 0
  {
    if k == 0 then Limb(if c then 1 else 0) else Pair(FromBit(false, k - 1), FromBit(c, k - 1))
  }

  /** The converting constructor from the half type. */
  function Extend(x: Wide, k: nat): (y: Wide)
    requires Level(x, k)
    ensures Level(y, k + 1) && Value(y, k + 1) == Value(x, k)
  {
    Pair(FromBit(false, k), x)
  }

  // ---------- addition ----------

  function Bit(c: bool): int {
    if c then 1 else 0
  }

  /** The carries of the two high additions are never both set, and together they are the carry out. */
  lemma CarryOnce(ah: int, al: int, bh: int, bl: int, lo: int, t: int, hi: int, m: int, c0: bool, c1: bool, c2: bool)
    requires 0 <= ah < m && 0 <= bh < m && 0 <= t < m && 0 <= hi < m
    requires lo + Bit(c0) * m == al + bl
    requires t + Bit(c1) * m == ah + bh
    requires hi + Bit(c2) * m == t + Bit(c0)
    ensures (hi * m + lo) + (if c1 || c2 then m * m else 0) == (ah * m + al) + (bh * m + bl)
  {
    assert !(c1 && c2);
    assert (ah + bh) * m == ah * m + bh * m;
    assert (t + Bit(c1) * m) * m == t * m + Bit(c1) * m * m;
    assert (hi + Bit(c2) * m) * m == hi * m + Bit(c2) * m * m;
    assert (t + Bit(c0)) * m == t * m + Bit(c0) * m;
  }

  /** x is the sum of m and n, modulo level k, with the carry out. */
  ghost predicate IsSum(x: (Wide, bool), m: nat, n: nat, k: nat) {
    Level(x.0, k) && Value(x.0, k) + (if x.1 then Mod(k) else 0) == m + n
  }

  /** The three sums of halves make up the sum. */
  lemma SumOfHalves(a: Wide, b: Wide, k: nat, lo: (Wide, bool), tt: (Wide, bool), hi: (Wide, bool))
    requires k > 0 && Level(a, k) && Level(b, k)
    requires IsSum(lo, Value(a.lo, k - 1), Value(b.lo, k - 1), k - 1)
    requires IsSum(tt, Value(a.hi, k - 1), Value(b.hi, k - 1), k - 1)
    requires IsSum(hi, Value(tt.0, k - 1), Bit(lo.1), k - 1)
    ensures IsSum((Pair(hi.0, lo.0), tt.1 || hi.1), Value(a, k), Value(b, k), k)
  {
    hide Value, Mod;
    PairValue(a, k);
    PairValue(b, k);
    PairValue(Pair(hi.0, lo.0), k);
    ValueBound(a.hi, k - 1); ValueBound(b.hi, k - 1); ValueBound(tt.0, k - 1); ValueBound(hi.0, k - 1);
    CarryOnce(Value(a.hi, k - 1), Value(a.lo, k - 1), Value(b.hi, k - 1), Value(b.lo, k - 1), Value(lo.0, k - 1),
              Value(tt.0, k - 1), Value(hi.0, k - 1), Mod(k - 1), lo.1, tt.1, hi.1);
  }

  /** add_with_carry on halves, recursively down to the machine word. */
  function AddWithCarry(a: Wide, b: Wide, k: nat): (r: (Wide, bool))
    requires Level(a, k) && Level(b, k)
    ensures IsSum(r, Value(a, k), Value(b, k), k)
    decreases k
  {
    if k == 0 then
      var s := Wrap(a.word + b.word);
      (Limb(s), s < a.word)
    else
      var lo := AddWithCarry(a.lo, b.lo, k - 1);
      var tt := AddWithCarry(a.hi, b.hi, k - 1);
      var hi := AddWithCarry(tt.0, FromBit(lo.1, k - 1), k - 1);
      SumOfHalves(a, b, k, lo, tt, hi);
      (Pair(hi.0, lo.0), tt.1 || hi.1)
  }

  /** operator+ when the sum fits. */
  function Add(a: Wide, b: Wide, k: nat): (r: Wide)
    requires Level(a, k) && Level(b, k)
    ensures Level(r, k)
    ensures Value(a, k) + Value(b, k) < Mod(k) ==> Value(r, k) == Value(a, k) + Value(b, k)
  {
    AddWithCarry(a, b, k).0
  }

  // ---------- multiplication ----------

  lemma PartialBound(a: int, b: int, m: int)
    requires 0 <= a < m && 0 <= b < m
    ensures 0 <= a * b <= m * m - 2 * m + 1
  {
    MulNonNeg(a, b);
    MulLe2(a, b, m - 1, m - 1);
    assert (m - 1) * (m - 1) == m * m - 2 * m + 1;
  }

  lemma FourProducts(xh: int, xl: int, yh: int, yl: int, m: int)
    ensures (xh * m + xl) * (yh * m + yl) == (xh * yh) * (m * m) + (xh * yl) * m + (xl * yh) * m + xl * yl
  {
  }

  lemma ShiftSplit(h: int, l: int, x: int, y: int, m: int, n: int)
    requires n == m * m && h * m + l == x + y
    ensures h * n + l * m == x * m + y * m
  {
    assert (h * m + l) * m == (x + y) * m;
    assert h * m * m == h * n;
  }

  /** The schoolbook sum of the four partial products a, b, c, e. */
  lemma PartialSum(a: int, b: int, c: int, e: int, m: int, n: int, t0h: int, t0l: int, u1h: int, u1l: int, u2h: int, u2l: int)
    requires n == m * m && t0h * m + t0l == e
    requires u1h * m + u1l == b + t0h
    requires u2h * m + u2l == c + u1l
    ensures (a + u2h + u1h) * n + (u2l * m + t0l) == a * n + b * m + c * m + e
  {
    ShiftSplit(u1h, u1l, b, t0h, m, n);
    ShiftSplit(u2h, u2l, c, u1l, m, n);
    assert (a + u2h + u1h) * n == a * n + u2h * n + u1h * n;
  }

  /** The high half of a product of two values below n fits below n. */
  lemma HighFits(x: int, y: int, n: int, hi: int, lo: int)
    requires 0 <= x < n && 0 <= y < n && 0 <= lo && hi * n + lo == x * y
    ensures hi < n
  {
    MulLt(y, n, x + 1);
    MulLe(x + 1, n, n);
    assert (x + 1) * y == x * y + y;
    MulLtCancel(hi, n, n);
  }

  /** r, of twice the width, is the product of x and y. */
  ghost predicate IsProduct(r: Wide, x: Wide, y: Wide, k: nat)
    requires Level(x, k) && Level(y, k)
  {
    Level(r, k + 1) && Value(r, k + 1) == Value(x, k) * Value(y, k)
  }

  function LimbProduct(x: Wide, y: Wide): (r: Wide)
    requires Level(x, 0) && Level(y, 0)
    ensures IsProduct(r, x, y, 0)
  {
    var p := Uint128.Umul(x.word, y.word);
    Pair(Limb(p.hi), Limb(p.lo))
  }

  /** Full multiplication, recursively down to 64 x 64 -> 128. */
  function Umul(x: Wide, y: Wide, k: nat): (r: Wide)
    requires Level(x, k) && Level(y, k)
    ensures IsProduct(r, x, y, k)
    decreases k
  {
    if k == 0 then LimbProduct(x, y)
    else
      var t0 := Umul(x.lo, y.lo, k - 1);
      var t1 := Umul(x.hi, y.lo, k - 1);
      var t2 := Umul(x.lo, y.hi, k - 1);
      var t3 := Umul(x.hi, y.hi, k - 1);
      MultiplyStep(x, y, k, t0, t1, t2, t3)
  }

  /** The combining step of umul: its additions never overflow. */
  function MultiplyStep(x: Wide, y: Wide, k: nat, t0: Wide, t1: Wide, t2: Wide, t3: Wide): (r: Wide)
    requires k > 0 && Level(x, k) && Level(y, k)
    requires IsProduct(t0, x.lo, y.lo, k - 1) && IsProduct(t1, x.hi, y.lo, k - 1)
    requires IsProduct(t2, x.lo, y.hi, k - 1) && IsProduct(t3, x.hi, y.hi, k - 1)
    ensures IsProduct(r, x, y, k)
  {
    var u1 := Add(t1, Extend(t0.hi, k - 1), k);
    var u2 := Add(t2, Extend(u1.lo, k - 1), k);
    var lo := Pair(u2.lo, t0.lo);
    var hi := Add(Add(t3, Extend(u2.hi, k - 1), k), Extend(u1.hi, k - 1), k);
    MultiplyStepExact(x, y, k, t0, t1, t2, t3, u1, u2, hi);
    Pair(hi, lo)
  }

  lemma ValueProduct(x: Wide, y: Wide, k: nat)
    requires k > 0 && Level(x, k) && Level(y, k)
    ensures var xh, xl, yh, yl := Value(x.hi, k - 1), Value(x.lo, k - 1), Value(y.hi, k - 1), Value(y.lo, k - 1);
            Value(x, k) * Value(y, k) == (xh * yh) * Mod(k) + (xh * yl) * Mod(k - 1) + (xl * yh) * Mod(k - 1) + xl * yl
  {
    FourProducts(Value(x.hi, k - 1), Value(x.lo, k - 1), Value(y.hi, k - 1), Value(y.lo, k - 1), Mod(k - 1));
  }

  lemma PairValue(x: Wide, k: nat)
    requires k > 0 && Level(x, k)
    ensures Value(x, k) == Value(x.hi, k - 1) * Mod(k - 1) + Value(x.lo, k - 1)
    ensures Mod(k) == Mod(k - 1) * Mod(k - 1)
  {
  }

  lemma MultiplyStepExact(x: Wide, y: Wide, k: nat, t0: Wide, t1: Wide, t2: Wide, t3: Wide, u1: Wide, u2: Wide, hi: Wide)
    requires k > 0 && Level(x, k) && Level(y, k)
    requires Level(t0, k) && Level(t1, k) && Level(t2, k) && Level(t3, k)
    requires Value(t0, k) == Value(x.lo, k - 1) * Value(y.lo, k - 1)
    requires Value(t1, k) == Value(x.hi, k - 1) * Value(y.lo, k - 1)
    requires Value(t2, k) == Value(x.lo, k - 1) * Value(y.hi, k - 1)
    requires Value(t3, k) == Value(x.hi, k - 1) * Value(y.hi, k - 1)
    requires u1 == Add(t1, Extend(t0.hi, k - 1), k)
    requires u2 == Add(t2, Extend(u1.lo, k - 1), k)
    requires hi == Add(Add(t3, Extend(u2.hi, k - 1), k), Extend(u1.hi, k - 1), k)
    ensures Value(Pair(hi, Pair(u2.lo, t0.lo)), k + 1) == Value(x, k) * Value(y, k)
  {
    hide Add, Extend, Value, Mod;
    var m, n := Mod(k - 1), Mod(k);
    ghost var xh, xl, yh, yl := Value(x.hi, k - 1), Value(x.lo, k - 1), Value(y.hi, k - 1), Value(y.lo, k - 1);
    ValueBound(x.hi, k - 1); ValueBound(x.lo, k - 1); ValueBound(y.hi, k - 1); ValueBound(y.lo, k - 1);
    ValueBound(t0.hi, k - 1); ValueBound(u1.lo, k - 1);
    PairValue(t0, k); PairValue(u1, k); PairValue(u2, k);
    PartialBound(xh, yl, m);
    PartialBound(xl, yh, m);
    ghost var u1h, u2h := Value(u1.hi, k - 1), Value(u2.hi, k - 1);
    ghost var lo := Pair(u2.lo, t0.lo);
    PairValue(lo, k);
    PartialSum(xh * yh, xh * yl, xl * yh, xl * yl, m, n, Value(t0.hi, k - 1), Value(t0.lo, k - 1),
               u1h, Value(u1.lo, k - 1), u2h, Value(u2.lo, k - 1));
    ValueProduct(x, y, k);
    ValueBound(x, k); ValueBound(y, k);
    HighFits(Value(x, k), Value(y, k), n, xh * yh + u2h + u1h, Value(lo, k));
    PairValue(Pair(hi, lo), k + 1);
  }

  // ---------- the word view and modular arithmetic ----------

  /** Number of 64-bit words at level k. */
  function Words(k: nat): (n: nat)
    ensures n >= 1
  {
    if k == 0 then 1 else 2 * Words(k - 1)
  }

  lemma {:induction false} ModIsPow(k: nat)
    ensures Mod(k) == Pow(Words(k))
  {
    if k > 0 {
      ModIsPow(k - 1);
      PowAdd(Words(k - 1), Words(k - 1));
    } else {
      assert Pow(1) == B * Pow(0);
    }
  }

  lemma JoinWords(l: seq<u64>, h: seq<u64>, k: nat)
    requires |l| == Words(k)
    ensures Val(l + h) == Val(h) * Mod(k) + Val(l)
  {
    hide Val, Mod, Pow;
    ValAppend(l, h);
    ModIsPow(k);
  }

  lemma OneWord(w: u64)
    ensures Val([w]) == w
  {
    ValCons(w, []);
  }

  /** as_words: the little-endian words of x. */
  function ToWords(x: Wide, k: nat): (s: seq<u64>)
    requires Level(x, k)
    ensures |s| == Words(k)
    ensures Val(s) == Value(x, k)
  {
    match x
    case Limb(w) =>
      OneWord(w);
      [w]
    case Pair(hi, lo) =>
      var l, h := ToWords(lo, k - 1), ToWords(hi, k - 1);
      JoinWords(l, h, k - 1);
      l + h
  }

  function FromWords(s: seq<u64>, k: nat): (x: Wide)
    requires |s| == Words(k)
    ensures Level(x, k)
    ensures Value(x, k) == Val(s)
    decreases k
  {
    if k == 0 then
      OneWord(s[0]);
      assert s == [s[0]];
      Limb(s[0])
    else
      var half := Words(k - 1);
      JoinWords(s[..half], s[half..], k - 1);
      assert s[..half] + s[half..] == s;
      Pair(FromWords(s[half..], k - 1), FromWords(s[..half], k - 1))
  }

  /** x % y for two values of level k. */
  method Modulo(x: Wide, y: Wide, k: nat) returns (r: Wide)
    requires Level(x, k) && Level(y, k) && Value(y, k) != 0
    ensures Level(r, k) && Value(r, k) == Value(x, k) % Value(y, k)
  {
    hide Val, Value, ToWords, FromWords, Words, QuotRem;
    var q, rem := Udivrem(ToWords(x, k), ToWords(y, k));
    assert |rem| == Words(k) by { QuotRemWidth(ToWords(x, k), ToWords(y, k), q, rem); }
    r := FromWords(rem, k);
  }

  lemma QuotRemWidth(u: seq<u64>, v: seq<u64>, q: seq<u64>, r: seq<u64>)
    requires QuotRem(u, v, q, r)
    ensures |q| == |u| && |r| == |u|
  {
  }

  /** The lower half of a value that is below the half modulus is the whole value. */
  lemma LowHalf(x: Wide, k: nat)
    requires k > 0 && Level(x, k) && Value(x, k) < Mod(k - 1)
    ensures Value(x.lo, k - 1) == Value(x, k)
  {
    if Value(x.hi, k - 1) > 0 { MulLe(1, Value(x.hi, k - 1), Mod(k - 1)); }
  }

  const UINT256: nat := 2

  /** (x + y) % mod for 256-bit operands: the carry is kept in a 512-bit intermediate. */
  method Addmod(x: Wide, y: Wide, mod: Wide) returns (r: Wide)
    requires Level(x, UINT256) && Level(y, UINT256) && Level(mod, UINT256) && Value(mod, UINT256) != 0
    ensures Level(r, UINT256)
    ensures Value(r, UINT256) == (Value(x, UINT256) + Value(y, UINT256)) % Value(mod, UINT256)
  {
    hide AddWithCarry, FromBit, Extend, Level, Value;
    var k := UINT256;
    var s := AddWithCarry(x, y, k);
    var wide := Pair(FromBit(s.1, k), s.0);
    WideSum(s.0, s.1, k);
    r := Modulo(wide, Extend(mod, k), k + 1);
    ValueBound(mod, k);
    LowHalf(r, k + 1);
    LowLevel(r, k + 1);
    r := r.lo;
  }

  lemma LowLevel(x: Wide, k: nat)
    requires k > 0 && Level(x, k)
    ensures x.Pair? && Level(x.lo, k - 1)
  {
  }

  lemma WideSum(s: Wide, carry: bool, k: nat)
    requires Level(s, k)
    ensures Level(Pair(FromBit(carry, k), s), k + 1)
    ensures Value(Pair(FromBit(carry, k), s), k + 1) == Value(s, k) + (if carry then Mod(k) else 0)
  {
  }

  /** (x * y) % mod for 256-bit operands through the full 512-bit product. */
  method Mulmod(x: Wide, y: Wide, mod: Wide) returns (r: Wide)
    requires Level(x, UINT256) && Level(y, UINT256) && Level(mod, UINT256) && Value(mod, UINT256) != 0
    ensures Level(r, UINT256)
    ensures Value(r, UINT256) == (Value(x, UINT256) * Value(y, UINT256)) % Value(mod, UINT256)
  {
    hide Umul, Extend, Level, Value;
    var k := UINT256;
    r := Modulo(Umul(x, y, k), Extend(mod, k), k + 1);
    ValueBound(mod, k);
    LowHalf(r, k + 1);
    LowLevel(r, k + 1);
    r := r.lo;
  }
}
