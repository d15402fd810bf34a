/** The RAM market: a Bancor connector between RAM bytes and core tokens that can always buy back what it has sold. */
module RamMarket {
  import opened ExchangeState
  import opened Outcomes
  import opened Products
  import opened TableSums

  type Name = int

  const RAM_ACCOUNT: Name := 6138663590285017088   // eosio.ram
  const MAX_RAM_LIMIT := 1125899906842624          // 1024^5

  /**
   * The rammarket row, the RAM fields of the global state, the ram_bytes of the userres rows and the tokens held by
   * eosio.ram. `quote0` is the quote balance the market was opened with, `moved` what has come into or gone out of
   * eosio.ram past the market; `slot` is the current block slot.
   */
  datatype Market = Market(
    isOpen: bool,
    quote0: int,
    base: int,
    quote: int,
    maxRam: int,
    reserved: int,
    stake: int,
    ramBytes: map<Name, int>,
    held: int,
    moved: int,
    newRamPerBlock: int,
    lastIncrease: int,
    slot: int
  )

  function BytesOf(m: map<Name, int>, n: Name): int {
    if n in m then m[n] else 0
  }

  /** The fee of half a percent, rounded up. */
  function Fee(amount: int): int {
    (amount + 199) / 200
  }

  /** init: open the market with the free RAM and a thousandth of the token supply. */
  function Init(m: Market, supply: int): Outcome<Market> {
    var allowed := !m.isOpen;
    :- Check(allowed);
    :- Check(supply > 0);
    Ok(m.(isOpen := true, base := m.maxRam - m.reserved, quote := supply / 1000, quote0 := supply / 1000))
  }

  /** update_ram_supply. */
  function Grown(m: Market): Market {
    if m.slot <= m.lastIncrease then m
    else
      var newRam := (m.slot - m.lastIncrease) * m.newRamPerBlock;
      m.(maxRam := m.maxRam + newRam, base := m.base + newRam, lastIncrease := m.slot)
  }

  /** buyram, for `quant` tokens of the payer. */
  function BuyRam(m: Market, receiver: Name, quant: int): Outcome<Market> {
    var allowed := m.isOpen;
    :- Check(allowed);
    var g := Grown(m);
    :- Check(quant > 0);
    var paid := quant - Fee(quant);
    :- Check(0 < paid);   // the transfer to eosio.ram refuses anything else
    var bytes :- BancorOutput(g.quote, g.base, paid);
    :- Check(bytes > 0);
    Ok(g.(base := g.base - bytes, quote := g.quote + paid, reserved := g.reserved + bytes, stake := g.stake + paid,
          ramBytes := g.ramBytes[receiver := BytesOf(g.ramBytes, receiver) + bytes], held := g.held + paid))
  }

  /** sellram. */
  function SellRam(m: Market, account: Name, bytes: int): Outcome<Market> {
    var allowed := m.isOpen;
    :- Check(allowed);
    var g := Grown(m);
    :- Check(bytes > 0);
    :- Check(account in g.ramBytes);
    :- Check(g.ramBytes[account] >= bytes);
    var tokens :- BancorOutput(g.base, g.quote, bytes);
    :- Check(tokens > 1);
    :- Expected(g.stake - tokens >= 0, LogicError);
    :- Check(account != RAM_ACCOUNT);   // no transfer to oneself
    :- Expected(tokens <= g.held, Overdrawn);
    Ok(g.(base := g.base + bytes, quote := g.quote - tokens, reserved := g.reserved - bytes, stake := g.stake - tokens,
          ramBytes := g.ramBytes[account := g.ramBytes[account] - bytes], held := g.held - tokens))
  }

  /** setram. */
  function SetRam(m: Market, maxRam: int): Outcome<Market> {
    var allowed := m.maxRam < maxRam;
    :- Check(allowed);
    :- Check(maxRam < MAX_RAM_LIMIT);
    :- Check(maxRam > m.reserved);
    :- Check(m.isOpen);
    Ok(m.(base := m.base + (maxRam - m.maxRam), maxRam := maxRam))
  }

  /** setramrate. */
  function SetRamRate(m: Market, bytesPerBlock: int): Outcome<Market> {
    var allowed := m.isOpen || m.slot <= m.lastIncrease;
    :- Check(allowed);
    Ok(Grown(m).(newRamPerBlock := bytesPerBlock))
  }

  /** Core tokens sent to eosio.ram, or taken from it: distviarex asks nobody. */
  function MoveTokens(m: Market, amount: int): Outcome<Market> {
    var allowed := 0 <= m.held + amount;
    :- Check(allowed);
    Ok(m.(held := m.held + amount, moved := m.moved + amount))
  }

  datatype Action =
    | Open(supply: int)
    | Buy(receiver: Name, quant: int)
    | Sell(account: Name, bytes: int)
    | Extend(maxRam: int)
    | SetRate(bytesPerBlock: nat)
    | Move(amount: int)
    | Wait(slots: nat)

  function Step(m: Market, a: Action): Outcome<Market> {
    match a
    case Open(supply) => Init(m, supply)
    case Buy(receiver, quant) => BuyRam(m, receiver, quant)
    case Sell(account, bytes) => SellRam(m, account, bytes)
    case Extend(maxRam) => SetRam(m, maxRam)
    case SetRate(bytesPerBlock) => SetRamRate(m, bytesPerBlock)
    case Move(amount) => MoveTokens(m, amount)
    case Wait(slots) => Ok(m.(slot := m.slot + slots))
  }

  function After(m: Market, a: Action): Market {
    if Step(m, a).Ok? then Step(m, a).value else m
  }

  function Run(m: Market, actions: seq<Action>): Market
    decreases |actions|
  {
    if actions == [] then m else Run(After(m, actions[0]), actions[1..])
  }

  /** 12 GiB on offer, nothing sold, no market yet. */
  predicate Genesis(m: Market) {
    && !m.isOpen && m.maxRam == 12884901888 && m.reserved == 0 && m.stake == 0 && m.held == 0 && m.moved == 0 && m.ramBytes == map[]
    && 0 <= m.newRamPerBlock && m.base == 0 && m.quote == 0 && m.quote0 == 0
  }

  function Bytes(n: Name, b: int): int { b }

  /**
   * All RAM is either in the market or some account's, the quote balance is what it was opened with plus the stake, and
   * the product of the balances never falls below what selling everything back would need.
   */
  ghost predicate Sound(m: Market) {
    && 0 < m.maxRam && 0 <= m.reserved <= m.maxRam && 0 <= m.newRamPerBlock && 0 <= m.held == m.stake + m.moved
    && m.reserved == Sum(m.ramBytes, Bytes)
    && (forall n :: n in m.ramBytes ==> 0 <= m.ramBytes[n])
    && (if m.isOpen then
          && m.base + m.reserved == m.maxRam && m.quote == m.quote0 + m.stake
          && 0 <= m.base && 0 <= m.quote && 0 <= m.quote0
          && m.maxRam * m.quote0 <= m.base * m.quote
        else m.reserved == 0 && m.stake == 0)
  }

  // ---- the product of the balances

  /** With a product that large the quote balance is at least what the market was opened with. */
  lemma QuoteCovered(base: int, quote: int, maxRam: int, quote0: int)
    requires 0 <= base <= maxRam && 0 <= quote && 0 <= quote0 && maxRam * quote0 <= base * quote && 0 < base
    ensures quote0 <= quote
  {
    MulLe(base, maxRam, quote0);
    if quote < quote0 { MulLt(quote, quote0, base); }
  }

  lemma StakeNonNegative(m: Market)
    requires Sound(m)
    ensures 0 <= m.stake
  {
    if m.isOpen {
      if 0 < m.base {
        QuoteCovered(m.base, m.quote, m.maxRam, m.quote0);
      } else {
        NothingLeft(m.maxRam, m.quote0);
      }
    }
  }

  lemma NothingLeft(maxRam: int, quote0: int)
    requires 0 < maxRam && 0 <= quote0 && maxRam * quote0 <= 0
    ensures quote0 == 0
  {
  }

  // ---- every action keeps the market sound

  /** New RAM goes on sale at the current quote balance, which is no less than the initial one. */
  lemma GrownSound(m: Market, newRam: int)
    requires Sound(m) && m.isOpen && 0 <= newRam
    ensures Sound(m.(maxRam := m.maxRam + newRam, base := m.base + newRam))
  {
    hide Sum;
    StakeNonNegative(m);
    MulLe(m.quote0, m.quote, newRam);
    assert (m.maxRam + newRam) * m.quote0 == m.maxRam * m.quote0 + m.quote0 * newRam;
    assert (m.base + newRam) * m.quote == m.base * m.quote + m.quote * newRam;
  }

  lemma SupplySound(m: Market)
    requires Sound(m) && m.isOpen
    ensures Sound(Grown(m)) && Grown(m).isOpen && Grown(m).quote0 == m.quote0 && m.maxRam <= Grown(m).maxRam
  {
    hide Sound;
    if m.lastIncrease < m.slot {
      RateNonNegative(m);
      var newRam := (m.slot - m.lastIncrease) * m.newRamPerBlock;
      MulNonNeg(m.slot - m.lastIncrease, m.newRamPerBlock);
      GrownSound(m, newRam);
      SoundAtSlot(m.(maxRam := m.maxRam + newRam, base := m.base + newRam), m.slot);
    }
  }

  lemma RateNonNegative(m: Market)
    requires Sound(m)
    ensures 0 <= m.newRamPerBlock
  {
  }

  lemma SoundAtSlot(m: Market, slot: int)
    requires Sound(m)
    ensures Sound(m.(lastIncrease := slot)) && Sound(m.(slot := slot))
  {
  }

  lemma BuyRamSound(m: Market, receiver: Name, quant: int)
    requires Sound(m)
    ensures !BuyRam(m, receiver, quant).Broken?
    ensures BuyRam(m, receiver, quant).Ok? ==> Sound(BuyRam(m, receiver, quant).value)
  {
    hide Sum, BancorOutput, Grown;
    if m.isOpen {
      SupplySound(m);
      var g := Grown(m);
      var paid := quant - Fee(quant);
      if quant > 0 && 0 < paid {
        BancorFloor(g.quote, g.base, paid);
        var bytes := BancorOutput(g.quote, g.base, paid).value;
        if bytes > 0 {
          ProductGrows(g.quote, g.base, paid, bytes);
          SumWrite(g.ramBytes, Bytes, receiver, BytesOf(g.ramBytes, receiver) + bytes);
          ProductsSwap(g, bytes, paid);
        }
      }
    }
  }

  lemma ProductsSwap(g: Market, bytes: int, paid: int)
    requires g.maxRam * g.quote0 <= g.base * g.quote && g.quote * g.base <= (g.quote + paid) * (g.base - bytes)
    ensures g.maxRam * g.quote0 <= (g.base - bytes) * (g.quote + paid)
  {
  }

  /** Selling back always finds the stake it needs, and the tokens unless some have been taken from eosio.ram. */
  lemma SellRamSound(m: Market, account: Name, bytes: int)
    requires Sound(m)
    ensures SellRam(m, account, bytes).Broken? ==> m.moved < 0
    ensures SellRam(m, account, bytes).Ok? ==> Sound(SellRam(m, account, bytes).value)
  {
    hide Sum, BancorOutput, Grown;
    if m.isOpen {
      SupplySound(m);
      var g := Grown(m);
      if bytes > 0 && account in g.ramBytes && g.ramBytes[account] >= bytes {
        BancorFloor(g.base, g.quote, bytes);
        var tokens := BancorOutput(g.base, g.quote, bytes).value;
        ProductGrows(g.base, g.quote, bytes, tokens);
        SumWrite(g.ramBytes, Bytes, account, g.ramBytes[account] - bytes);
        ShareAtMostSum(g.ramBytes, Bytes, account);
        QuoteCovered(g.base + bytes, g.quote - tokens, g.maxRam, g.quote0);
        GrownTokens(m);
      }
    }
  }

  lemma GrownTokens(m: Market)
    ensures var g := Grown(m); g.held == m.held && g.stake == m.stake && g.moved == m.moved
  {
  }

  /** The account has the bytes, and at the current balances they are worth at least two token units. */
  predicate Sellable(m: Market, account: Name, bytes: int) {
    var g := Grown(m);
    m.isOpen && account != RAM_ACCOUNT && 0 < bytes <= BytesOf(g.ramBytes, account) && 2 * (g.base + bytes) <= bytes * g.quote
  }

  /** What a sale pays out. */
  function Price(m: Market, bytes: int): int {
    var g := Grown(m);
    if g.base + bytes == 0 then 0 else bytes * g.quote / (g.base + bytes)
  }

  /**
   * A sale goes through exactly when there is something to sell, it is worth selling and eosio.ram has the price; it
   * breaks exactly when only the price is missing. The stake always covers it.
   */
  lemma SellRamExactly(m: Market, account: Name, bytes: int)
    requires Sound(m)
    ensures SellRam(m, account, bytes).Ok? <==> Sellable(m, account, bytes) && Price(m, bytes) <= m.held
    ensures SellRam(m, account, bytes).Broken? <==> Sellable(m, account, bytes) && m.held < Price(m, bytes)
    ensures Sellable(m, account, bytes) ==> Price(m, bytes) <= m.stake
  {
    hide Sum, BancorOutput, Grown, Sound;
    GrownTokens(m);
    SellRamSound(m, account, bytes);
    if m.isOpen {
      SupplySound(m);
      var g := Grown(m);
      BalancesNonNegative(g);
      if 0 < bytes <= BytesOf(g.ramBytes, account) {
        BancorFloor(g.base, g.quote, bytes);
        FloorAtLeastTwo(bytes * g.quote, g.base + bytes);
        PriceCovered(g, account, bytes, Price(m, bytes));
      }
    }
  }

  lemma PriceCovered(g: Market, account: Name, bytes: int, tokens: int)
    requires Sound(g) && g.isOpen && 0 < bytes <= BytesOf(g.ramBytes, account)
    requires tokens <= g.quote && tokens * (g.base + bytes) <= bytes * g.quote
    ensures tokens <= g.stake
  {
    hide Sum;
    ProductGrows(g.base, g.quote, bytes, tokens);
    ShareAtMostSum(g.ramBytes, Bytes, account);
    QuoteCovered(g.base + bytes, g.quote - tokens, g.maxRam, g.quote0);
  }

  lemma BalancesNonNegative(m: Market)
    requires Sound(m) && m.isOpen
    ensures 0 <= m.base && 0 <= m.quote
  {
  }

  lemma FloorAtLeastTwo(n: int, d: int)
    requires 0 <= n && 0 < d
    ensures n / d > 1 <==> 2 * d <= n
  {
    var q := n / d;
    assert n == q * d + n % d;
    if q > 1 { MulLe(2, q, d); } else { MulLe(q, 1, d); }
  }

  lemma StepSound(m: Market, a: Action)
    requires Sound(m)
    ensures Step(m, a).Broken? ==> m.moved < 0
    ensures Step(m, a).Ok? ==> Sound(Step(m, a).value)
  {
    hide Sum, BuyRam, SellRam, Grown, Sound;
    match a
    case Open(supply) => InitSound(m, supply);
    case Buy(receiver, quant) => BuyRamSound(m, receiver, quant);
    case Sell(account, bytes) => SellRamSound(m, account, bytes);
    case Extend(maxRam) => SetRamSound(m, maxRam);
    case SetRate(bytesPerBlock) => SetRamRateSound(m, bytesPerBlock);
    case Move(amount) => MoveSound(m, amount);
    case Wait(slots) => SoundAtSlot(m, m.slot + slots);
  }

  lemma MoveSound(m: Market, amount: int)
    requires Sound(m)
    ensures !MoveTokens(m, amount).Broken? && (MoveTokens(m, amount).Ok? ==> Sound(MoveTokens(m, amount).value))
  {
    hide Sum;
  }

  lemma InitSound(m: Market, supply: int)
    requires Sound(m)
    ensures !Init(m, supply).Broken? && (Init(m, supply).Ok? ==> Sound(Init(m, supply).value))
  {
    hide Sum;
  }

  lemma SetRamSound(m: Market, maxRam: int)
    requires Sound(m)
    ensures !SetRam(m, maxRam).Broken? && (SetRam(m, maxRam).Ok? ==> Sound(SetRam(m, maxRam).value))
  {
    hide Sound;
    if SetRam(m, maxRam).Ok? {
      GrownSound(m, maxRam - m.maxRam);
    }
  }

  lemma SetRamRateSound(m: Market, bytesPerBlock: nat)
    requires Sound(m)
    ensures !SetRamRate(m, bytesPerBlock).Broken?
    ensures SetRamRate(m, bytesPerBlock).Ok? ==> Sound(SetRamRate(m, bytesPerBlock).value)
  {
    hide Sound;
    if m.isOpen {
      SupplySound(m);
      SoundAtRate(Grown(m), bytesPerBlock);
    } else {
      SoundAtRate(m, bytesPerBlock);
    }
  }

  lemma SoundAtRate(m: Market, bytesPerBlock: nat)
    requires Sound(m)
    ensures Sound(m.(newRamPerBlock := bytesPerBlock))
  {
  }

  // ---- runs

  lemma {:induction false} RunSound(m: Market, actions: seq<Action>)
    requires Sound(m)
    ensures Sound(Run(m, actions))
    decreases |actions|
  {
    hide Sound, Step;
    if actions == [] {
    } else {
      StepSound(m, actions[0]);
      RunSound(After(m, actions[0]), actions[1..]);
    }
  }

  /**
   * The market can always buy back. In every run all RAM is accounted for, the quote balance is the initial one plus
   * the stake, and the stake never goes negative and covers every sale. Unless tokens have been taken from eosio.ram no
   * sale is stopped by the checks after the exchange, and every account can sell what it has as long as that is worth
   * two token units.
   */
  lemma AlwaysBuysBack(m: Market, actions: seq<Action>)
    requires Genesis(m)
    ensures var t := Run(m, actions);
      && (t.isOpen ==> t.base + Sum(t.ramBytes, Bytes) == t.maxRam && t.quote == t.quote0 + t.stake)
      && (t.isOpen ==> t.maxRam * t.quote0 <= t.base * t.quote)
      && 0 <= t.stake && t.held == t.stake + t.moved
    ensures forall account, bytes :: var t := Run(m, actions); BuysBack(t, account, bytes)
  {
    hide Sum, Run, BuysBack;
    GenesisSound(m);
    RunSound(m, actions);
    var t := Run(m, actions);
    StakeNonNegative(t);
    forall account, bytes
      ensures BuysBack(t, account, bytes)
    {
      SoundBuysBack(t, account, bytes);
    }
  }

  /** How a sale ends, with `moved` not negative unless tokens have been taken. */
  predicate BuysBack(m: Market, account: Name, bytes: int) {
    && (SellRam(m, account, bytes).Ok? <==> Sellable(m, account, bytes) && Price(m, bytes) <= m.held)
    && (SellRam(m, account, bytes).Broken? <==> Sellable(m, account, bytes) && m.held < Price(m, bytes))
    && (Sellable(m, account, bytes) ==> Price(m, bytes) <= m.stake)
    && (0 <= m.moved ==> !SellRam(m, account, bytes).Broken?)
  }

  lemma SoundBuysBack(m: Market, account: Name, bytes: int)
    requires Sound(m)
    ensures BuysBack(m, account, bytes)
  {
    hide Sound, SellRam, Sellable, Price;
    SellRamSound(m, account, bytes);
    SellRamExactly(m, account, bytes);
  }

  /** Once everything has been taken from eosio.ram no sale that is worth anything goes through any more. */
  lemma TakenTokensStopSales(m: Market, account: Name, bytes: int)
    requires Sound(m) && Sellable(m, account, bytes)
    ensures var t := After(m, Move(-m.held)); t.held == 0 && SellRam(t, account, bytes) == Broken(Overdrawn)
  {
    hide Sum;
    var t := After(m, Move(-m.held));
    MoveSound(m, -m.held);
    SellRamExactly(t, account, bytes);
    PriceAtLeastTwo(t, account, bytes);
  }

  /** That happens after three actions: 200 token units buy 198 bytes, and the tokens paid for them are taken. */
  lemma SaleStopped(m: Market, account: Name)
    requires Genesis(m) && m.slot <= m.lastIncrease && account != RAM_ACCOUNT
    ensures var t := Run(m, [Open(12884901888000), Buy(account, 200), Move(-199)]);
      Sellable(t, account, 198) && SellRam(t, account, 198) == Broken(Overdrawn)
  {
    hide Sum, SellRam, Sellable, Sound;
    var open, buy, move := Open(12884901888000), Buy(account, 200), Move(-199);
    var ready := After(m, open);
    var bought := After(ready, buy);
    BuysHundredNinetyEight(ready, account);
    WorthSelling(bought, account);
    ThreeActions(m, open, buy, move);
    GenesisSound(m);
    StepSound(m, open);
    StepSound(ready, buy);
    TakenTokensStopSales(bought, account, 198);
    WorthSelling(After(bought, move), account);
  }

  lemma ThreeActions(m: Market, a: Action, b: Action, c: Action)
    ensures Run(m, [a, b, c]) == After(After(After(m, a), b), c)
  {
    hide After;
    var n := After(m, a);
    assert [a, b, c][1..] == [b, c] && [b, c][1..] == [c] && [c][1..] == [];
    assert Run(After(n, b), [c]) == After(After(n, b), c);
    assert Run(n, [b, c]) == Run(After(n, b), [c]);
  }

  lemma BuysHundredNinetyEight(m: Market, account: Name)
    requires m.isOpen && m.slot <= m.lastIncrease && m.base == 12884901888 && m.quote == 12884901888 && m.ramBytes == map[]
    ensures BuyRam(m, account, 200)
         == Ok(m.(base := 12884901690, quote := 12884902087, reserved := m.reserved + 198, stake := m.stake + 199,
                  ramBytes := m.ramBytes[account := 198], held := m.held + 199))
  {
  }

  lemma WorthSelling(m: Market, account: Name)
    requires m.isOpen && m.slot <= m.lastIncrease && m.base == 12884901690 && m.quote == 12884902087
    requires account != RAM_ACCOUNT && BytesOf(m.ramBytes, account) == 198
    ensures Sellable(m, account, 198)
  {
  }

  lemma PriceAtLeastTwo(m: Market, account: Name, bytes: int)
    requires Sound(m) && Sellable(m, account, bytes)
    ensures 2 <= Price(m, bytes)
  {
    hide Sound, Grown;
    SupplySound(m);
    BalancesNonNegative(Grown(m));
    FloorAtLeastTwo(bytes * Grown(m).quote, Grown(m).base + bytes);
  }

  lemma GenesisSound(m: Market)
    requires Genesis(m)
    ensures Sound(m)
  {
  }
}
