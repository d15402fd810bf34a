/** The 64-bit machine word of libs/eosio.evm/external/intx and arithmetic modulo 2^64. */
module MachineWord {

  const B: int := 0x1_0000_0000_0000_0000
  const HALF: int := 0x8000_0000_0000_0000

  type u64 = x: int | 0 <= x < B

  /** Conversion of a mathematical integer to a word: every uint64_t operation ends in it. */
  function Wrap(x: int): (r: u64)
    ensures 0 <= x < B ==> r == x
    ensures -B <= x < 0 ==> r == x + B
    ensures B <= x < 2 * B ==> r == x - B
  {
    x % B
  }

  lemma WrapOffset(x: int) returns (c: int)
    ensures Wrap(x) == x + c * B
  {
    c := -(x / B);
  }

  lemma WrapShift(x: int, k: int)
    ensures Wrap(x + k * B) == Wrap(x)
  {
    assert (x + k * B) / B == x / B + k;
  }
}
