/** Powers of two: the shift amounts of intx and mini-gmp. */
module PowersOfTwo {

  /** 2^k. */
  function Pow2(k: nat): (r: nat)
    ensures r >= 1
  {
    if k == 0 then 1 else 2 * Pow2(k - 1)
  }

  lemma {:induction false} Pow2Add(a: nat, b: nat)
    ensures Pow2(a + b) == Pow2(a) * Pow2(b)
  {
    if a == 0 {
    } else {
      Pow2Add(a - 1, b);
    }
  }

  lemma Pow2Of16()
    ensures Pow2(16) == 0x1_0000
  {
    assert Pow2(4) == 16;
    Pow2Add(4, 4);
    Pow2Add(8, 8);
  }

  lemma Pow2Of64()
    ensures Pow2(64) == 0x1_0000_0000_0000_0000
  {
    hide Pow2;
    Pow2Of16();
    Pow2Add(16, 16);
    Pow2Add(32, 32);
  }

  lemma Pow2Of1()
    ensures Pow2(0) == 1 && Pow2(1) == 2
  {
  }
}
