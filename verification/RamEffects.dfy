/** What each action of the RAM market does, in numbers. */
module RamEffects {
  import opened ExchangeState
  import opened Outcomes
  import opened Products
  import opened RamMarket

  // ---- the supply

  /** Bytes are added for every slot since the last increase, and all of them go on sale. */
  lemma GrownExactly(m: Market)
    ensures m.slot <= m.lastIncrease ==> Grown(m) == m
    ensures m.lastIncrease < m.slot ==>
      var bytes := (m.slot - m.lastIncrease) * m.newRamPerBlock;
      Grown(m) == m.(maxRam := m.maxRam + bytes, base := m.base + bytes, lastIncrease := m.slot)
  {
  }

  /** What growing the supply leaves alone. */
  lemma GrownFrame(m: Market)
    ensures var g := Grown(m);
      && g.quote == m.quote && g.reserved == m.reserved && g.stake == m.stake && g.ramBytes == m.ramBytes
      && g.held == m.held && g.isOpen == m.isOpen && g.moved == m.moved && g.quote0 == m.quote0
  {
  }

  // ---- the fee

  /** Half a percent of the payment, rounded up. */
  predicate IsFee(quant: int, fee: int) {
    200 * (fee - 1) < quant <= 200 * fee
  }

  lemma FeeIs(quant: int)
    ensures IsFee(quant, Fee(quant))
    ensures forall fee :: IsFee(quant, fee) ==> fee == Fee(quant)
  {
  }

  // ---- buying

  /** The bytes that `paid` tokens buy at the current balances, rounded down. */
  predicate Buys(m: Market, paid: int, bytes: int) {
    0 <= bytes && bytes * (m.quote + paid) <= paid * m.base < (bytes + 1) * (m.quote + paid)
  }

  /** Only the account's bytes change, and those by this much. */
  ghost predicate BytesChange(was: map<Name, int>, now: map<Name, int>, account: Name, change: int) {
    forall n :: BytesOf(now, n) == BytesOf(was, n) + if n == account then change else 0
  }

  lemma BuysUnique(m: Market, paid: int, a: int, b: int)
    requires 0 < m.quote + paid && Buys(m, paid, a) && Buys(m, paid, b)
    ensures a == b
  {
    if a < b { MulLe(a + 1, b, m.quote + paid); }
    if b < a { MulLe(b + 1, a, m.quote + paid); }
  }

  /**
   * A purchase of `quant` with fee `fee` goes through exactly when the market is open and what is left after the fee
   * buys at least one byte at the grown balances. The receiver, and nobody else, gets the bytes, and the payment less
   * the fee enters the market.
   */
  lemma BuyRamExactly(m: Market, receiver: Name, quant: int, fee: int, bytes: int)
    requires Sound(m) && IsFee(quant, fee) && 0 < quant
    requires m.isOpen && fee < quant ==> Buys(Grown(m), quant - fee, bytes)
    ensures BuyRam(m, receiver, quant).Ok? <==> m.isOpen && fee < quant && 0 < bytes
    ensures BuyRam(m, receiver, quant).Ok? ==>
      var g, t := Grown(m), BuyRam(m, receiver, quant).value;
      && BytesChange(m.ramBytes, t.ramBytes, receiver, bytes)
      && t == g.(base := g.base - bytes, quote := g.quote + (quant - fee), reserved := g.reserved + bytes,
                 stake := g.stake + (quant - fee), held := g.held + (quant - fee), ramBytes := t.ramBytes)
  {
    hide Sound, Grown, BancorOutput, Fee;
    FeeIs(quant);
    GrownFrame(m);
    if m.isOpen && fee < quant {
      SupplySound(m);
      var g := Grown(m);
      BalancesNonNegative(g);
      BancorFloor(g.quote, g.base, quant - fee);
      BuysUnique(g, quant - fee, BancorOutput(g.quote, g.base, quant - fee).value, bytes);
    }
  }

  /** A payment of nothing or less is refused. */
  lemma NothingRefused(m: Market, receiver: Name, quant: int)
    requires quant <= 0
    ensures BuyRam(m, receiver, quant).Refused?
  {
    hide Grown;
  }

  // ---- selling

  /** What a sale that goes through changes: the account's bytes, nobody else's, against the price of the bytes. */
  lemma SellRamEffect(m: Market, account: Name, bytes: int)
    requires Sound(m) && SellRam(m, account, bytes).Ok?
    ensures var g, t := Grown(m), SellRam(m, account, bytes).value;
      var price := m.quote - t.quote;
      && price * (g.base + bytes) <= bytes * g.quote < (price + 1) * (g.base + bytes)
      && BytesChange(m.ramBytes, t.ramBytes, account, -bytes)
      && t == g.(base := g.base + bytes, quote := g.quote - price, reserved := g.reserved - bytes,
                 stake := g.stake - price, held := g.held - price, ramBytes := t.ramBytes)
  {
    hide Sound, Grown, BancorOutput;
    GrownFrame(m);
    SupplySound(m);
    var g := Grown(m);
    BalancesNonNegative(g);
    BancorFloor(g.base, g.quote, bytes);
  }

  /** What a purchase buys brings back at most what was paid for it when it is sold at once. */
  lemma BoughtBack(m: Market, receiver: Name, quant: int)
    requires Sound(m) && BuyRam(m, receiver, quant).Ok?
    ensures var t := BuyRam(m, receiver, quant).value;
      var bytes := BytesOf(t.ramBytes, receiver) - BytesOf(m.ramBytes, receiver);
      SellRam(t, receiver, bytes).Ok? ==> t.quote - SellRam(t, receiver, bytes).value.quote <= t.stake - m.stake
  {
    hide Sound, Grown, BancorOutput, SellRam;
    var g := Grown(m);
    SupplySound(m);
    BalancesNonNegative(g);
    GrownFrame(m);
    var paid := quant - Fee(quant);
    BancorFloor(g.quote, g.base, paid);
    ExchangeBack(g.quote, g.base, paid);
    var bytes := BancorOutput(g.quote, g.base, paid).value;
    var t := BuyRam(m, receiver, quant).value;
    BuyRamSound(m, receiver, quant);
    GrownTwice(m, g, t);
    if SellRam(t, receiver, bytes).Ok? {
      SellRamPrice(t, receiver, bytes);
      GrownFrame(t);
    }
  }

  /** The supply grows once a slot. */
  lemma GrownTwice(m: Market, g: Market, t: Market)
    requires g == Grown(m) && t.slot == g.slot && t.lastIncrease == g.lastIncrease
    ensures Grown(t) == t
  {
  }

  lemma SellRamPrice(m: Market, account: Name, bytes: int)
    requires SellRam(m, account, bytes).Ok?
    ensures var g := Grown(m);
      BancorOutput(g.base, g.quote, bytes).Ok?
      && m.quote - SellRam(m, account, bytes).value.quote == BancorOutput(g.base, g.quote, bytes).value
  {
    hide Grown, BancorOutput;
    GrownFrame(m);
  }

  // ---- administration

  /** init opens the market once, with the RAM not yet sold against a thousandth of the supply. */
  lemma InitExactly(m: Market, supply: int)
    ensures Init(m, supply).Ok? <==> !m.isOpen && 0 < supply
    ensures Init(m, supply).Ok? ==>
      var t := Init(m, supply).value;
      && t == m.(isOpen := true, base := t.base, quote := t.quote, quote0 := t.quote)
      && t.base + m.reserved == m.maxRam && 1000 * t.quote <= supply < 1000 * (t.quote + 1)
  {
  }

  /** setram only ever adds RAM, below the limit, and puts it on sale. */
  lemma SetRamExactly(m: Market, maxRam: int)
    requires Sound(m)
    ensures SetRam(m, maxRam).Ok? <==> m.isOpen && m.maxRam < maxRam < 1125899906842624
    ensures SetRam(m, maxRam).Ok? ==>
      var t := SetRam(m, maxRam).value;
      t == m.(base := t.base, maxRam := maxRam) && t.base - m.base == maxRam - m.maxRam
  {
  }

  /** setramrate adds what is due at the old rate first. */
  lemma SetRamRateExactly(m: Market, bytesPerBlock: int)
    ensures SetRamRate(m, bytesPerBlock).Ok? <==> m.isOpen || m.slot <= m.lastIncrease
    ensures SetRamRate(m, bytesPerBlock).Ok? ==>
      var t := SetRamRate(m, bytesPerBlock).value;
      && t.newRamPerBlock == bytesPerBlock && t.ramBytes == m.ramBytes && t.quote == m.quote
      && t.maxRam - m.maxRam == (if m.slot <= m.lastIncrease then 0 else (m.slot - m.lastIncrease) * m.newRamPerBlock)
      && t.base - m.base == t.maxRam - m.maxRam
  {
  }
}
