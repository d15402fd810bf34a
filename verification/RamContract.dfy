/** The RAM actions of the system contract, changing the rows of the market in place. */
module RamContract {
  import opened ExchangeState
  import opened Outcomes
  import opened RamMarket

  class Contract {
    var isOpen: bool
    ghost var quote0: int
    var base: int
    var quote: int
    var maxRam: int
    var reserved: int
    var stake: int
    var ramBytes: map<Name, int>
    var held: int
    ghost var moved: int
    var newRamPerBlock: int
    var lastIncrease: int
    var slot: int

    ghost function Rows(): Market
      reads this
    {
      Market(isOpen, quote0, base, quote, maxRam, reserved, stake, ramBytes, held, moved, newRamPerBlock, lastIncrease,
             slot)
    }

    ghost predicate Implements(out: Outcome<()>, spec: Outcome<Market>)
      reads this
    {
      if out.Ok? then spec == Ok(Rows()) else SameFailure(out, spec)
    }

    constructor ()
      ensures Genesis(Rows())
    {
      isOpen, quote0, base, quote, maxRam, reserved, stake := false, 0, 0, 0, 12884901888, 0, 0;
      ramBytes, held, moved, newRamPerBlock, lastIncrease, slot := map[], 0, 0, 0, 0, 0;
    }

    method Init(supply: int) returns (out: Outcome<()>)
      modifies this
      ensures Implements(out, RamMarket.Init(old(Rows()), supply))
    {
      var allowed := !isOpen;
      :- Check(allowed);
      :- Check(supply > 0);
      isOpen, base, quote, quote0 := true, maxRam - reserved, supply / 1000, supply / 1000;
      return Ok(());
    }

    method UpdateRamSupply()
      modifies this
      ensures Rows() == Grown(old(Rows()))
    {
      if slot <= lastIncrease {
        return;
      }
      var newRam := (slot - lastIncrease) * newRamPerBlock;
      maxRam := maxRam + newRam;
      base := base + newRam;
      lastIncrease := slot;
    }

    method BuyRam(receiver: Name, quant: int) returns (out: Outcome<()>)
      modifies this
      ensures Implements(out, RamMarket.BuyRam(old(Rows()), receiver, quant))
    {
      hide Grown, BancorOutput;
      :- Check(isOpen);
      UpdateRamSupply();
      :- Check(quant > 0);
      var fee := (quant + 199) / 200;
      var quantAfterFee := quant - fee;
      :- Check(0 < quantAfterFee);
      held := held + quantAfterFee;
      var bytesOut :- BancorOutput(quote, base, quantAfterFee);
      quote := quote + quantAfterFee;
      base := base - bytesOut;
      :- Check(bytesOut > 0);
      reserved := reserved + bytesOut;
      stake := stake + quantAfterFee;
      if receiver !in ramBytes {
        ramBytes := ramBytes[receiver := bytesOut];
      } else {
        ramBytes := ramBytes[receiver := ramBytes[receiver] + bytesOut];
      }
      return Ok(());
    }

    method SellRam(account: Name, bytes: int) returns (out: Outcome<()>)
      modifies this
      ensures Implements(out, RamMarket.SellRam(old(Rows()), account, bytes))
    {
      hide Grown, BancorOutput;
      :- Check(isOpen);
      UpdateRamSupply();
      :- Check(bytes > 0);
      :- Check(account in ramBytes);
      :- Check(ramBytes[account] >= bytes);
      var tokensOut :- BancorOutput(base, quote, bytes);
      base := base + bytes;
      quote := quote - tokensOut;
      :- Check(tokensOut > 1);
      reserved := reserved - bytes;
      stake := stake - tokensOut;
      :- Expected(stake >= 0, LogicError);
      ramBytes := ramBytes[account := ramBytes[account] - bytes];
      :- Check(account != RAM_ACCOUNT);
      :- Expected(tokensOut <= held, Overdrawn);
      held := held - tokensOut;
      return Ok(());
    }

    method SetRam(newMax: int) returns (out: Outcome<()>)
      modifies this
      ensures Implements(out, RamMarket.SetRam(old(Rows()), newMax))
    {
      var allowed := maxRam < newMax;
      :- Check(allowed);
      :- Check(newMax < MAX_RAM_LIMIT);
      :- Check(newMax > reserved);
      var delta := newMax - maxRam;
      :- Check(isOpen);
      base := base + delta;
      maxRam := newMax;
      return Ok(());
    }

    method SetRamRate(bytesPerBlock: int) returns (out: Outcome<()>)
      modifies this
      ensures Implements(out, RamMarket.SetRamRate(old(Rows()), bytesPerBlock))
    {
      hide Grown, BancorOutput;
      :- Check(isOpen || slot <= lastIncrease);
      UpdateRamSupply();
      newRamPerBlock := bytesPerBlock;
      return Ok(());
    }

    method MoveTokens(amount: int) returns (out: Outcome<()>)
      modifies this
      ensures Implements(out, RamMarket.MoveTokens(old(Rows()), amount))
    {
      var allowed := 0 <= held + amount;
      :- Check(allowed);
      held, moved := held + amount, moved + amount;
      return Ok(());
    }

    method Dispatch(a: Action) returns (out: Outcome<()>)
      modifies this
      ensures Implements(out, Step(old(Rows()), a))
    {
      hide RamMarket.BuyRam, RamMarket.SellRam, RamMarket.SetRamRate, RamMarket.SetRam, RamMarket.Init;
      match a
      case Open(supply) => out := Init(supply);
      case Buy(receiver, quant) => out := BuyRam(receiver, quant);
      case Sell(account, bytes) => out := SellRam(account, bytes);
      case Extend(newMax) => out := SetRam(newMax);
      case SetRate(bytesPerBlock) => out := SetRamRate(bytesPerBlock);
      case Move(amount) => out := MoveTokens(amount);
      case Wait(slots) =>
        slot := slot + slots;
        out := Ok(());
    }

    /**
     * One action as a transaction: it takes effect or leaves every row as it was, keeps a sound market sound, and unless
     * tokens have been taken from eosio.ram never fails but by being refused.
     */
    method Push(a: Action) returns (out: Outcome<()>)
      requires Sound(Rows())
      modifies this
      ensures Rows() == After(old(Rows()), a)
      ensures Sound(Rows()) && (out.Broken? ==> old(moved) < 0)
    {
      hide Step, Sound;
      ghost var was := Rows();
      StepSound(was, a);
      ghost var oldQuote0, oldMoved := quote0, moved;
      var saved := Market(isOpen, 0, base, quote, maxRam, reserved, stake, ramBytes, held, 0, newRamPerBlock, lastIncrease, slot);
      out := Dispatch(a);
      if !out.Ok? {
        Restore(saved, oldQuote0, oldMoved);
      }
    }

    method Restore(m: Market, ghost quote0: int, ghost moved: int)
      modifies this
      ensures Rows() == m.(quote0 := quote0, moved := moved)
    {
      this.quote0, this.moved := quote0, moved;
      isOpen, base, quote, maxRam, reserved, stake := m.isOpen, m.base, m.quote, m.maxRam, m.reserved, m.stake;
      ramBytes, held, newRamPerBlock, lastIncrease, slot := m.ramBytes, m.held, m.newRamPerBlock, m.lastIncrease, m.slot;
    }
  }
}
