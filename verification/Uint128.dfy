/**
 The 128-bit integer of intx (libs/eosio.evm/external/intx/int128.hpp): two words, with
 carry arithmetic, comparison and the portable 64 x 64 -> 128 multiplication.
 */
module Uint128 {
  import opened MachineWord
  import opened Products

  datatype U128 = U128(hi: u64, lo: u64) {
    function Value(): int {
      hi * B + lo
    }
  }

  const SQ: int := 0x1_0000_0000_0000_0000_0000_0000_0000_0000  // 2^128

  lemma ValueBounds(x: U128)
    ensures 0 <= x.Value() < SQ
  {
  }

  /** Sum and carry, with the source's two carry tests on each half. */
  function AddWithCarry(a: U128, b: U128): (r: (U128, bool))
    ensures r.0.Value() + (if r.1 then SQ else 0) == a.Value() + b.Value()
  {
    var lo := Wrap(a.lo + b.lo);
    var loCarry := if lo < a.lo then 1 else 0;
    var t := Wrap(a.hi + b.hi);
    var carry1 := t < a.hi;
    var hi := Wrap(t + loCarry);
    var carry2 := hi < t;
    (U128(hi, lo), carry1 || carry2)
  }

  function SubWithCarry(a: U128, b: U128): (r: (U128, bool))
    ensures r.0.Value() - (if r.1 then SQ else 0) == a.Value() - b.Value()
  {
    var lo := Wrap(a.lo - b.lo);
    var loBorrow := if lo > a.lo then 1 else 0;
    var t := Wrap(a.hi - b.hi);
    var borrow1 := t > a.hi;
    var hi := Wrap(t - loBorrow);
    var borrow2 := hi > t;
    (U128(hi, lo), borrow1 || borrow2)
  }

  function Add(a: U128, b: U128): (r: U128)
    ensures a.Value() + b.Value() < SQ ==> r.Value() == a.Value() + b.Value()
    ensures a.Value() + b.Value() >= SQ ==> r.Value() == a.Value() + b.Value() - SQ
  {
    ValueBounds(AddWithCarry(a, b).0);
    AddWithCarry(a, b).0
  }

  function Sub(a: U128, b: U128): (r: U128)
    ensures a.Value() >= b.Value() ==> r.Value() == a.Value() - b.Value()
    ensures a.Value() < b.Value() ==> r.Value() == a.Value() - b.Value() + SQ
  {
    ValueBounds(SubWithCarry(a, b).0);
    SubWithCarry(a, b).0
  }

  predicate Less(x: U128, y: U128)
    ensures Less(x, y) <==> x.Value() < y.Value()
  {
    x.hi < y.hi || (x.hi == y.hi && x.lo < y.lo)
  }

  const H: int := 0x1_0000_0000

  /** The split of a product into four products of 32-bit halves. */
  lemma HalvesProduct(xl: int, xh: int, yl: int, yh: int)
    ensures (xh * H + xl) * (yh * H + yl) == xh * yh * B + (xh * yl + xl * yh) * H + xl * yl
  {
  }

  lemma HalfBound(a: int, b: int)
    requires 0 <= a < H && 0 <= b < H
    ensures 0 <= a * b <= B - 2 * H + 1
  {
    MulNonNeg(a, b);
    MulLe2(a, b, H - 1, H - 1);
  }

  /** Summing the four partial products: the carries u1 and u2 never overflow a word. */
  lemma CombinePartials(t0: int, t1: int, t2: int, t3: int)
    requires 0 <= t0 <= B - 2 * H + 1 && 0 <= t1 <= B - 2 * H + 1
    requires 0 <= t2 <= B - 2 * H + 1 && 0 <= t3 <= B - 2 * H + 1
    ensures var u1 := t1 + t0 / H;
            var u2 := t2 + u1 % H;
            var hi := t3 + u2 / H + u1 / H;
            && 0 <= u1 < B && 0 <= u2 < B && 0 <= hi < B
            && Wrap(u2 * H) == u2 % H * H
            && hi * B + (u2 % H * H + t0 % H) == t3 * B + (t1 + t2) * H + t0
  {
    var u2 := t2 + (t1 + t0 / H) % H;
    assert u2 * H == u2 % H * H + u2 / H * B;
    WrapShift(u2 % H * H, u2 / H);
  }

  /** The four partial products, their bounds and what they add up to. */
  lemma PartialProducts(x: u64, y: u64)
    ensures var xl, xh, yl, yh := x % H, x / H, y % H, y / H;
      && 0 <= xl * yl <= B - 2 * H + 1 && 0 <= xh * yl <= B - 2 * H + 1
      && 0 <= xl * yh <= B - 2 * H + 1 && 0 <= xh * yh <= B - 2 * H + 1
      && x * y == xh * yh * B + (xh * yl + xl * yh) * H + xl * yl
  {
    var xl, xh, yl, yh := x % H, x / H, y % H, y / H;
    HalfBound(xl, yl); HalfBound(xh, yl); HalfBound(xl, yh); HalfBound(xh, yh);
    HalvesProduct(xl, xh, yl, yh);
    assert x == xh * H + xl && y == yh * H + yl;
  }

  /** The sum of the four partial products, word by word. */
  function Combine(t0: u64, t1: u64, t2: u64, t3: u64): (r: U128)
    requires t0 <= B - 2 * H + 1 && t1 <= B - 2 * H + 1 && t2 <= B - 2 * H + 1 && t3 <= B - 2 * H + 1
    ensures r.Value() == t3 * B + (t1 + t2) * H + t0
  {
    CombinePartials(t0, t1, t2, t3);
    var u1 := Wrap(t1 + t0 / H);
    var u2 := Wrap(t2 + u1 % H);
    var lo := Wrap(u2 * H) + t0 % H;
    var hi := Wrap(t3 + u2 / H + u1 / H);
    U128(hi, lo)
  }

  /** Portable full multiplication: no intermediate word overflows and the product is exact. */
  function Umul(x: u64, y: u64): (r: U128)
    ensures r.Value() == x * y
  {
    PartialProducts(x, y);
    Combine(Wrap((x % H) * (y % H)), Wrap((x / H) * (y % H)), Wrap((x % H) * (y / H)), Wrap((x / H) * (y / H)))
  }
}
