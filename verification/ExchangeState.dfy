/** The Bancor exchange formula shared by REX loans and the RAM market. */
module ExchangeState {
  import opened Outcomes
  import opened Products
  import NumberTheory

  /** get_bancor_output with the conversion to int64_t truncating towards zero. */
  function BancorOutput(inpReserve: int, outReserve: int, inp: int): Outcome<int> {
    var holds := inpReserve + inp != 0;
    :- Expected(holds, DivisionByZero);
    var out := NumberTheory.TDiv(inp * outReserve, inpReserve + inp);
    Ok(if out < 0 then 0 else out)
  }

  /** On non-negative reserves the output is the floor of the exact one, and never more than the reserve it comes from. */
  lemma BancorFloor(inpReserve: int, outReserve: int, inp: int)
    requires 0 <= inpReserve && 0 <= outReserve && 0 < inp
    ensures BancorOutput(inpReserve, outReserve, inp).Ok?
    ensures var out := BancorOutput(inpReserve, outReserve, inp).value;
      && out == (inp * outReserve) / (inpReserve + inp)
      && 0 <= out <= outReserve && out * (inpReserve + inp) <= inp * outReserve < (out + 1) * (inpReserve + inp)
  {
    MulNonNeg(inp, outReserve);
    FloorWithin(inp * outReserve, inpReserve + inp, inp, outReserve);
  }

  lemma FloorWithin(n: int, d: int, inp: int, outReserve: int)
    requires n == inp * outReserve && 0 <= n && 0 < d && inp <= d && 0 <= outReserve
    ensures 0 <= n / d <= outReserve && (n / d) * d <= n < (n / d + 1) * d
  {
    var out := n / d;
    assert n == out * d + n % d;
    assert (out + 1) * d == out * d + d;
    MulLe(inp, d, outReserve);
    if outReserve < out { MulLe(outReserve + 1, out, d); }
  }

  /** An exchange never lowers the product of the two balances. */
  lemma ProductGrows(inpReserve: int, outReserve: int, inp: int, out: int)
    requires out * (inpReserve + inp) <= inp * outReserve
    ensures inpReserve * outReserve <= (inpReserve + inp) * (outReserve - out)
  {
    assert (inpReserve + inp) * (outReserve - out) == inpReserve * outReserve + inp * outReserve - out * (inpReserve + inp);
  }

  /** What one exchange gives buys back at most what was paid for it. */
  lemma ExchangeBack(inpReserve: int, outReserve: int, inp: int)
    requires 0 <= inpReserve && 0 <= outReserve && 0 < inp
    ensures var out := BancorOutput(inpReserve, outReserve, inp).value;
      0 < out ==>
        var back := BancorOutput(outReserve - out, inpReserve + inp, out); back.Ok? && back.value <= inp
  {
    hide BancorOutput;
    BancorFloor(inpReserve, outReserve, inp);
    var out := BancorOutput(inpReserve, outReserve, inp).value;
    if 0 < out {
      BancorFloor(outReserve - out, inpReserve + inp, out);
      var back := BancorOutput(outReserve - out, inpReserve + inp, out).value;
      if inp < back { MulLt(inp, back, outReserve); }
    }
  }
}
