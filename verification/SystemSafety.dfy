/** The main results about the REX and staking tables, over every run of actions. */
module SystemSafety {
  import opened Outcomes
  import opened TableSums
  import opened RexMaturities
  import opened RexPool
  import opened SystemTables
  import RexLedger
  import Bandwidth
  import opened SystemActions
  import opened SystemBooks
  import opened RexInvariant
  import opened RexActionsKept
  import opened BandwidthKept

  // ---- the rest of the chain

  lemma OpenAccountSafe(s: State, owner: Name)
    requires Invariant(s)
    ensures Safe(s, OpenAccount(s, owner))
  {
    hide Books, Kept, Safe;
    var out := OpenAccount(s, owner);
    if out.Ok? {
      EnterKeeps(s, out.value, 0, 0, Delta(0, 0, 0));
      KeepsSafe(s, out);
    } else {
      RefusedIsSafe(s, out);
    }
  }

  lemma ChangeRamSafe(s: State, owner: Name, ram: int)
    requires Invariant(s)
    ensures Safe(s, ChangeRam(s, owner, ram))
  {
    hide Books, Kept, Safe;
    EnterKeeps(s, ChangeRam(s, owner, ram).value, 0, 0, Delta(0, 0, 0));
    KeepsSafe(s, ChangeRam(s, owner, ram));
  }

  lemma GiveSafe(s: State, from: Name, to: Name, amount: int)
    requires Invariant(s) && from != REX_ACCOUNT && from != STAKE_ACCOUNT
    ensures Safe(s, Give(s, from, to, amount))
  {
    hide Books, Kept, Safe, Transfer;
    TransferKeeps(s, from, to, amount, 0, 0, Delta(0, 0, 0));
    var out := Transfer(s, from, to, amount);
    if out.Ok? {
      var g, h := if to == REX_ACCOUNT then amount else 0, if to == STAKE_ACCOUNT then amount else 0;
      TransferPositive(s, from, to, amount);
      KeptHasBooks(s, out.value, g, h, Delta(0, 0, 0));
      GiftsEntered(s, out.value, Give(s, from, to, amount).value, g, h);
      KeepsSafe(s, Give(s, from, to, amount));
    } else {
      RefusedIsSafe(s, Give(s, from, to, amount));
    }
  }

  lemma TransferPositive(s: State, from: Name, to: Name, amount: int)
    requires Transfer(s, from, to, amount).Ok?
    ensures 0 < amount
    ensures var t := Transfer(s, from, to, amount).value; t.rexGifts == s.rexGifts && t.stakeGifts == s.stakeGifts
  {
  }

  lemma GiftsEntered(s: State, a: State, t: State, g: int, h: int)
    requires Kept(s, a, g, h, Delta(0, 0, 0)) && 0 <= g && 0 <= h
    requires t == a.(rexGifts := a.rexGifts + g, stakeGifts := a.stakeGifts + h)
    ensures Kept(s, t, 0, 0, Delta(0, 0, 0))
  {
    hide PoolBook, OwnerBook, TotalsBook, Liabilities, Staked, Balanced, PriceHolds;
  }

  lemma WaitSafe(s: State, microseconds: nat)
    requires Invariant(s) && Clock((s.now + microseconds) / 1000000)
    ensures Safe(s, Ok(s.(now := s.now + microseconds)))
  {
    hide PoolBook, TokenBook, StakeBook, TotalsBook, Sum, Sound;
    Later(s.now, s.now + microseconds);
    forall n | n in s.balances
      ensures Sound(s.balances[n], (s.now + microseconds) / 1000000, 0)
    {
      SoundLater(s.balances[n], s.Seconds(), (s.now + microseconds) / 1000000);
    }
    SamePrice(s);
  }

  lemma Later(a: nat, b: nat)
    requires a <= b
    ensures a / 1000000 <= b / 1000000
  {
  }

  lemma SamePrice(s: State)
    ensures s.pool.rex > 0 ==> PriceHolds(s.pool, s.pool)
  {
  }

  // ---- one step

  /**
   * Every admissible action, pushed in any state that has its books, either is refused or keeps the books, at a
   * price of REX no lower than before; none of the checks meant never to fire does fire.
   */
  lemma StepSafe(s: State, a: Action)
    requires Invariant(s) && Admissible(s, a)
    ensures Safe(s, Step(s, a))
  {
    hide Invariant, Safe, RexLedger.Deposit, RexLedger.Withdraw, RexLedger.BuyRex, RexLedger.UnstakeToRex,
      RexLedger.SellRex, RexLedger.CancelRexOrder, RexLedger.Rent, RexLedger.FundLoan, RexLedger.DefundLoan,
      RexLedger.UpdateRex, RexLedger.SetRex, RexLedger.RunRex, RexLedger.ConsolidateRex, RexLedger.MoveRexToSavings,
      RexLedger.MoveRexFromSavings, RexLedger.CloseRex, RexLedger.DistributeViaRex, RexLedger.ChannelNamebid,
      Bandwidth.DelegateBandwidth, Bandwidth.UndelegateBandwidth, Bandwidth.ClaimRefund,
      OpenAccount, ChangeRam, Give, Clock;
    match a
    case Deposit(owner, amount) => DepositSafe(s, owner, amount);
    case Withdraw(owner, amount) => WithdrawSafe(s, owner, amount);
    case BuyRex(from, amount) => BuyRexSafe(s, from, amount);
    case UnstakeToRex(owner, receiver, fromNet, fromCpu) => UnstakeToRexSafe(s, owner, receiver, fromNet, fromCpu);
    case SellRex(from, rex) => SellRexSafe(s, from, rex);
    case CancelRexOrder(owner) => CancelRexOrderSafe(s, owner);
    case Rent(res, from, receiver, payment, fund) => RentSafe(s, res, from, receiver, payment, fund);
    case FundLoan(res, from, loanNum, payment) => FundLoanSafe(s, res, from, loanNum, payment);
    case DefundLoan(res, from, loanNum, amount) => DefundLoanSafe(s, res, from, loanNum, amount);
    case UpdateRex(owner) => UpdateRexSafe(s, owner);
    case SetRex(balance) => SetRexSafe(s, balance);
    case RexExec(max) => RexExecSafe(s, max);
    case Consolidate(owner) => ConsolidateRexSafe(s, owner);
    case MoveToSavings(owner, rex) => MoveRexToSavingsSafe(s, owner, rex);
    case MoveFromSavings(owner, rex) => MoveRexFromSavingsSafe(s, owner, rex);
    case CloseRex(owner) => CloseRexSafe(s, owner);
    case DelegateBandwidth(from, receiver, net, cpu, transfer) => DelegateSafe(s, from, receiver, net, cpu, transfer);
    case UndelegateBandwidth(from, receiver, net, cpu) => UndelegateSafe(s, from, receiver, net, cpu);
    case ClaimRefund(owner) => ClaimRefundSafe(s, owner);
    case DistributeViaRex(from, amount, core) => DistributeViaRexSafe(s, from, amount);
    case CloseNameAuction(highestBid) => ChannelNamebidSafe(s, highestBid);
    case NewAccount(owner) => OpenAccountSafe(s, owner);
    case SetRam(owner, ram) => ChangeRamSafe(s, owner, ram);
    case PlainTransfer(from, to, amount) => GiveSafe(s, from, to, amount);
    case Wait(microseconds) => WaitSafe(s, microseconds);
  }

  lemma DelegateSafe(s: State, from: Name, receiver: Name, net: int, cpu: int, transfer: bool)
    requires Invariant(s) && from != REX_ACCOUNT && from != STAKE_ACCOUNT
    ensures Safe(s, Bandwidth.DelegateBandwidth(s, from, receiver, net, cpu, transfer))
  {
    hide Invariant, Safe, Bandwidth.ChangeBandwidth;
    if 0 <= cpu && 0 <= net && 0 < net + cpu && (!transfer || from != receiver) {
      ChangeBandwidthSafe(s, from, receiver, net, cpu, transfer);
    } else {
      RefusedIsSafe(s, Bandwidth.DelegateBandwidth(s, from, receiver, net, cpu, transfer));
    }
  }

  lemma UndelegateSafe(s: State, from: Name, receiver: Name, net: int, cpu: int)
    requires Invariant(s) && from != STAKE_ACCOUNT
    ensures Safe(s, Bandwidth.UndelegateBandwidth(s, from, receiver, net, cpu))
  {
    hide Invariant, Safe, Bandwidth.ChangeBandwidth;
    if 0 <= cpu && 0 <= net && 0 < net + cpu {
      ChangeBandwidthSafe(s, from, receiver, -net, -cpu, false);
    } else {
      RefusedIsSafe(s, Bandwidth.UndelegateBandwidth(s, from, receiver, net, cpu));
    }
  }

  // ---- runs

  lemma GenesisInvariant(s: State)
    requires Genesis(s)
    ensures Invariant(s)
  {
    hide PoolBook, TokenBook, OwnerBook, StakeBook, TotalsBook;
    GenesisPool(s);
    GenesisTokens(s);
    GenesisStakes(s);
    GenesisTotals(s);
  }

  /** All sums over empty tables are zero. */
  lemma GenesisPool(s: State)
    requires Genesis(s)
    ensures PoolBook(s.initialized, s.pool, s.cpuLoans, s.netLoans, s.balances)
    ensures OwnerBook(s.balances, s.orders, s.Seconds())
  {
    hide PoolBook, OwnerBook, Balanced, Unused;
    GenesisIsQuiet(s);
    EmptyPoolBook(s.initialized, s.pool, s.cpuLoans, s.netLoans, s.balances);
    EmptyOwnerBook(s.balances, s.orders, s.Seconds());
  }

  lemma EmptyPoolBook(initialized: bool, pool: Pool, cpu: map<int, Loan>, net: map<int, Loan>, balances: map<Name, Balance>)
    requires Balanced(pool) && Unused(pool) && cpu == map[] && net == map[] && balances == map[]
    ensures PoolBook(initialized, pool, cpu, net, balances)
  {
    hide Sum;
    SumEmpty(cpu, LoanStake);
    SumEmpty(net, LoanStake);
    SumEmpty(balances, Held);
  }

  lemma EmptyOwnerBook(balances: map<Name, Balance>, orders: map<Name, Order>, sec: int)
    requires Clock(sec) && balances == map[] && orders == map[]
    ensures OwnerBook(balances, orders, sec)
  {
    hide Sound, Clock;
  }

  lemma GenesisTokens(s: State)
    requires Genesis(s)
    ensures TokenBook(AmountOf(s.tokens, REX_ACCOUNT), s.rexGifts, s.funds, s.cpuLoans, s.netLoans, s.pool.lendable, s.orders, 0)
  {
    hide Sum;
    SumEmpty(s.funds, Amount);
    SumEmpty(s.cpuLoans, LoanFund);
    SumEmpty(s.netLoans, LoanFund);
    SumEmpty(s.orders, Unclaimed);
  }

  lemma GenesisStakes(s: State)
    requires Genesis(s)
    ensures StakeBook(AmountOf(s.tokens, STAKE_ACCOUNT), s.stakeGifts, s.delegations, s.refunds, 0)
  {
    hide Sum;
    SumEmpty(s.delegations, Delegated);
    SumEmpty(s.refunds, Refundable);
  }

  lemma GenesisTotals(s: State)
    requires Genesis(s)
    ensures TotalsBook(s.totals, s.delegations, s.cpuLoans, s.netLoans, Delta(0, 0, 0))
  {
    hide Sum;
    forall r
      ensures TotalsRight(s.totals, s.delegations, s.cpuLoans, s.netLoans, r, Delta(0, 0, 0))
    {
      SumEmpty(s.delegations, NetTo(r));
      SumEmpty(s.delegations, CpuTo(r));
      SumEmpty(s.cpuLoans, RentedTo(r));
      SumEmpty(s.netLoans, RentedTo(r));
    }
  }

  /** In every state a run reaches from an empty system all the books are right. */
  lemma {:induction false} RunKeepsInvariant(s: State, actions: seq<Action>)
    requires Invariant(s) && AllAdmissible(s, actions)
    ensures Invariant(Run(s, actions))
    decreases |actions|
  {
    hide Invariant, Step, Admissible;
    if actions == [] {
    } else {
      StepSafe(s, actions[0]);
      AfterInvariant(s, actions[0]);
      RunKeepsInvariant(After(s, actions[0]), actions[1..]);
    }
  }

  lemma AfterInvariant(s: State, a: Action)
    requires Invariant(s) && Safe(s, Step(s, a))
    ensures Invariant(After(s, a))
    ensures s.pool.rex > 0 ==> PriceHolds(s.pool, After(s, a).pool)
  {
    hide Books, Step;
    SamePrice(s);
  }

  /** Solvency of eosio.rex: it holds its owners' funds, the loan balances, the lendable tokens and unclaimed proceeds. */
  lemma RexSolvent(s: State, actions: seq<Action>)
    requires Genesis(s) && AllAdmissible(s, actions)
    ensures var t := Run(s, actions);
      AmountOf(t.tokens, REX_ACCOUNT)
      == Sum(t.funds, Amount) + Sum(t.cpuLoans, LoanFund) + Sum(t.netLoans, LoanFund) + t.pool.lendable
         + Sum(t.orders, Unclaimed) + t.rexGifts
  {
    hide Sum, PoolBook, OwnerBook, StakeBook, TotalsBook, Run, AllAdmissible, Genesis;
    GenesisInvariant(s);
    RunKeepsInvariant(s, actions);
  }

  /** eosio.stake holds everything delegated and everything being refunded. */
  lemma StakeSolvent(s: State, actions: seq<Action>)
    requires Genesis(s) && AllAdmissible(s, actions)
    ensures var t := Run(s, actions);
      AmountOf(t.tokens, STAKE_ACCOUNT) == Sum(t.delegations, Delegated) + Sum(t.refunds, Refundable) + t.stakeGifts
  {
    hide Sum, PoolBook, TokenBook, OwnerBook, TotalsBook, Run, AllAdmissible, Genesis;
    GenesisInvariant(s);
    RunKeepsInvariant(s, actions);
  }

  /** An account's NET and CPU are what is delegated to it and what is rented for it. */
  lemma ResourcesAgree(s: State, actions: seq<Action>, r: Name)
    requires Genesis(s) && AllAdmissible(s, actions)
    ensures var t := Run(s, actions);
      && ResourcesOf(t.totals, r).net == Sum(t.delegations, NetTo(r)) + Sum(t.netLoans, RentedTo(r))
      && ResourcesOf(t.totals, r).cpu == Sum(t.delegations, CpuTo(r)) + Sum(t.cpuLoans, RentedTo(r))
  {
    hide Sum, PoolBook, TokenBook, OwnerBook, StakeBook, Run, AllAdmissible, Genesis;
    GenesisInvariant(s);
    RunKeepsInvariant(s, actions);
    var t := Run(s, actions);
    assert TotalsRight(t.totals, t.delegations, t.cpuLoans, t.netLoans, r, Delta(0, 0, 0));
  }

  /**
   * The pool agrees with loans and balances: lendable is lent plus unlent, lent is what the loans stake, REX is what
   * the owners hold, and without REX the pool is empty, so that starting it over loses nothing.
   */
  lemma PoolAgrees(s: State, actions: seq<Action>)
    requires Genesis(s) && AllAdmissible(s, actions)
    ensures var t := Run(s, actions);
      && t.pool.lendable == t.pool.lent + t.pool.unlent && 0 <= t.pool.lent && 0 <= t.pool.unlent && 0 <= t.pool.rent
      && t.pool.lent == Sum(t.cpuLoans, LoanStake) + Sum(t.netLoans, LoanStake)
      && t.pool.rex == Sum(t.balances, Held) && 0 <= t.pool.rex
      && (t.pool.rex == 0 <==> t.pool.lendable == 0)
  {
    hide Sum, TokenBook, OwnerBook, StakeBook, TotalsBook, Run, AllAdmissible, Genesis;
    GenesisInvariant(s);
    RunKeepsInvariant(s, actions);
  }

  /**
   * Every owner's REX is matured or in buckets whose times strictly increase, any savings bucket last, and an open
   * sell order never asks for more than has matured.
   */
  lemma OwnersAgree(s: State, actions: seq<Action>, n: Name)
    requires Genesis(s) && AllAdmissible(s, actions)
    ensures var t := Run(s, actions);
      && (n in t.balances ==>
            var b := t.balances[n];
            b.rex == b.matured + Total(b.buckets) && 0 <= b.matured && NonNegative(b.buckets) && Increasing(b.buckets)
            && (forall i :: 0 <= i < |b.buckets| && b.buckets[i].time == END_OF_DAYS ==> i == |b.buckets| - 1))
      && (RexLedger.HasOpenOrder(t.orders, n) ==> n in t.balances && 0 < t.orders[n].requested <= t.balances[n].matured)
  {
    hide Sum, PoolBook, TokenBook, StakeBook, TotalsBook, Run, AllAdmissible, Genesis;
    GenesisInvariant(s);
    RunKeepsInvariant(s, actions);
    var t := Run(s, actions);
    if RexLedger.HasOpenOrder(t.orders, n) {
      assert Covered(t.balances, t.orders[n], n);
    }
  }

  /** No action of a run is ever stopped by one of the checks meant never to fire, or by a division by zero. */
  lemma NothingBreaks(s: State, actions: seq<Action>, a: Action)
    requires Genesis(s) && AllAdmissible(s, actions) && Admissible(Run(s, actions), a)
    ensures !Step(Run(s, actions), a).Broken?
  {
    hide Invariant, Step, Admissible, Run, AllAdmissible, Genesis, Books;
    GenesisInvariant(s);
    RunKeepsInvariant(s, actions);
    StepSafe(Run(s, actions), a);
  }

  /** There is REX in every state of the run. */
  ghost predicate RexStays(s: State, actions: seq<Action>)
    decreases |actions|
  {
    s.pool.rex > 0 && (actions != [] ==> RexStays(After(s, actions[0]), actions[1..]))
  }

  /** While there is REX its price never falls. */
  lemma {:induction false} PriceNeverFalls(s: State, actions: seq<Action>)
    requires Invariant(s) && AllAdmissible(s, actions) && RexStays(s, actions)
    ensures NotCheaper(s.pool, Run(s, actions).pool)
    decreases |actions|
  {
    hide Invariant, Step, Admissible, Balanced, NotCheaper;
    if actions != [] {
      var t := After(s, actions[0]);
      StepSafe(s, actions[0]);
      AfterInvariant(s, actions[0]);
      PriceNeverFalls(t, actions[1..]);
      RunKeepsInvariant(t, actions[1..]);
      InvariantPool(s);
      InvariantPool(t);
      InvariantPool(Run(t, actions[1..]));
      RexAtEnd(t, actions[1..]);
      PriceTransitive(s.pool, t.pool, Run(t, actions[1..]).pool);
    } else {
      SameNotCheaper(s.pool);
    }
  }

  lemma SameNotCheaper(p: Pool)
    ensures NotCheaper(p, p)
  {
  }

  lemma {:induction false} RexAtEnd(s: State, actions: seq<Action>)
    requires RexStays(s, actions)
    ensures Run(s, actions).pool.rex > 0
    decreases |actions|
  {
    hide Step;
    if actions == [] {
    } else {
      RexAtEnd(After(s, actions[0]), actions[1..]);
    }
  }

  // ---- what an owner can count on, and what the fee channel needs

  /** What the owner of a fund can take out: the fund and the proceeds of a filled order. */
  function Withdrawable(s: State, owner: Name): int {
    AmountOf(s.funds, owner) + RexLedger.ClaimableOf(s.orders, owner)
  }

  /** A withdrawal goes through exactly when the owner has the amount: eosio.rex can always cover it. */
  lemma WithdrawExactly(s: State, owner: Name, amount: int)
    requires Invariant(s) && owner != REX_ACCOUNT && owner != STAKE_ACCOUNT
    ensures RexLedger.Withdraw(s, owner, amount).Ok? <==> 0 < amount <= Withdrawable(s, owner)
    ensures RexLedger.Withdraw(s, owner, amount).Ok? ==>
      var t := RexLedger.Withdraw(s, owner, amount).value;
      && AmountOf(t.tokens, owner) == AmountOf(s.tokens, owner) + amount
      && Withdrawable(t, owner) == Withdrawable(s, owner) - amount
  {
    hide Books, Kept, Transfer;
    if 0 < amount {
      UpdateRexAccountKeeps(s, owner, 0, 0, 0, Delta(0, 0, 0));
      Claimed(s, owner, 0, 0, Delta(0, 0, 0));
      var a := RexLedger.UpdateRexAccount(s, owner, 0).0;
      KeptHasBooks(s, a, 0, 0, Delta(0, 0, 0));
      if amount <= AmountOf(a.funds, owner) {
        FromFundKeeps(a, owner, amount, 0, 0, Delta(0, 0, 0));
        var b := RexLedger.TransferFromFund(a, owner, amount).value;
        KeptHasBooks(a, b, amount, 0, Delta(0, 0, 0));
        PaidOut(b, owner, amount);
      }
    }
  }

  /** update_rex_account puts all that can be withdrawn into the fund. */
  lemma Claimed(s: State, owner: Name, g: int, h: int, d: Delta)
    requires Books(s, g, h, d)
    ensures var a := RexLedger.UpdateRexAccount(s, owner, 0).0;
      && AmountOf(a.funds, owner) == Withdrawable(s, owner) && a.tokens == s.tokens
      && RexLedger.ClaimableOf(a.orders, owner) == 0
  {
    hide Books, Kept, RexLedger.ClaimableOf, RexLedger.WithoutFilled, RexLedger.Funded;
    ClaimKeeps(s, owner, g, h, d);
    FundedAmount(s.funds, owner, RexLedger.ClaimableOf(s.orders, owner));
    NothingLeftToClaim(s.orders, owner);
  }

  lemma FundedAmount(funds: map<Name, int>, owner: Name, toFund: int)
    requires 0 <= toFund
    ensures AmountOf(RexLedger.Funded(funds, owner, toFund), owner) == AmountOf(funds, owner) + toFund
  {
  }

  lemma NothingLeftToClaim(orders: map<Name, Order>, owner: Name)
    ensures RexLedger.ClaimableOf(RexLedger.WithoutFilled(orders, owner), owner) == 0
  {
  }

  lemma PaidOut(s: State, owner: Name, amount: int)
    requires Books(s, amount, 0, Delta(0, 0, 0)) && owner != REX_ACCOUNT && 0 < amount
    ensures Transfer(s, REX_ACCOUNT, owner, amount).Ok?
    ensures var t := Transfer(s, REX_ACCOUNT, owner, amount).value;
      && AmountOf(t.tokens, owner) == AmountOf(s.tokens, owner) + amount
      && t.funds == s.funds && t.orders == s.orders
  {
    hide PoolBook, TokenBook, OwnerBook, StakeBook, TotalsBook;
    FundCovered(AmountOf(s.tokens, REX_ACCOUNT), s.rexGifts, s.funds, s.cpuLoans, s.netLoans, s.pool.lendable, s.orders, amount);
  }

  /**
   * distviarex checks neither whose tokens it takes nor which token they are. Fees channelled through it keep the
   * books exactly when they are core tokens of an account other than eosio.stake.
   */
  lemma DistributeViaRexExactly(s: State, from: Name, amount: int, core: bool)
    requires Invariant(s) && RexLedger.RexAvailable(s) && RexLedger.DistributeViaRex(s, from, amount, core).Ok?
    ensures Invariant(RexLedger.DistributeViaRex(s, from, amount, core).value) <==> core && from != STAKE_ACCOUNT
  {
    hide Sum, PoolBook, OwnerBook, TotalsBook, Liabilities, Staked, Safe, Balanced, PriceHolds;
    if core && from != STAKE_ACCOUNT {
      DistributeViaRexSafe(s, from, amount);
      SafeHasInvariant(s, RexLedger.DistributeViaRex(s, from, amount, core));
    } else if core {
      var t := RexLedger.DistributeViaRex(s, from, amount, core).value;
      assert AmountOf(t.tokens, STAKE_ACCOUNT) == AmountOf(s.tokens, STAKE_ACCOUNT) - amount;
    } else {
      FeeOwed(s, amount);
    }
  }

  lemma SafeHasInvariant(s: State, out: Outcome<State>)
    requires Safe(s, out) && out.Ok?
    ensures Invariant(out.value)
  {
    hide Books;
  }

  /** A fee booked but not received leaves eosio.rex short. */
  lemma FeeOwed(s: State, amount: int)
    requires Invariant(s) && 0 < amount
    ensures !Invariant(s.(pool := AddFee(s.pool, amount)))
  {
    hide Sum, PoolBook, OwnerBook, StakeBook, TotalsBook;
  }

  // ---- how the fee channel fails, from a run

  /** No loan has expired and no order is open, so runrex finds nothing to do. */
  predicate Quiet(s: State) {
    s.pool.namebid == 0 && ByExpiry(s.cpuLoans) == {} && ByExpiry(s.netLoans) == {} && OpenAfter(s.orders, (-1, -1)) == {}
  }

  lemma QuietRunRex(s: State)
    requires s.initialized && Quiet(s)
    ensures RexLedger.RunRex(s, 2) == Ok(s)
  {
  }

  lemma GenesisIsQuiet(s: State)
    requires Genesis(s)
    ensures Quiet(s) && !s.initialized && Balanced(s.pool) && Unused(s.pool)
    ensures forall n :: AmountOf(s.funds, n) == 0
  {
  }

  lemma DepositMade(s: State, owner: Name, amount: int)
    requires owner != REX_ACCOUNT && owner != STAKE_ACCOUNT && 0 < amount <= AmountOf(s.tokens, owner)
    ensures var out := RexLedger.Deposit(s, owner, amount);
      out.Ok? && out.value == s.(funds := out.value.funds, tokens := out.value.tokens)
      && owner in out.value.funds && out.value.funds[owner] == AmountOf(s.funds, owner) + amount
  {
  }

  lemma FirstBought(s: State, owner: Name, amount: int)
    requires Quiet(s) && !s.initialized && Balanced(s.pool) && Unused(s.pool)
    requires 0 < amount && owner in s.funds && amount <= s.funds[owner]
    ensures var out := RexLedger.BuyRex(s, owner, amount); out.Ok? && RexLedger.RexAvailable(out.value)
  {
    hide RexLedger.RunRex, Credit, Balanced;
    AddToEmptyPool(s.pool, false, amount);
    var taken := s.(funds := s.funds[owner := s.funds[owner] - amount]);
    var bought := RexLedger.Buy(taken, owner, amount).value;
    QuietRunRex(bought);
  }

  /** From an empty system one account's deposit and purchase make REX available. */
  lemma FirstPurchase(s: State, owner: Name, amount: int)
    requires Genesis(s) && owner != REX_ACCOUNT && owner != STAKE_ACCOUNT && 0 < amount <= AmountOf(s.tokens, owner)
    ensures var actions := [Deposit(owner, amount), BuyRex(owner, amount)];
      AllAdmissible(s, actions) && RexLedger.RexAvailable(Run(s, actions))
  {
    hide Genesis, Quiet, RexLedger.BuyRex, RexLedger.Deposit;
    GenesisIsQuiet(s);
    DepositMade(s, owner, amount);
    var a := RexLedger.Deposit(s, owner, amount).value;
    QuietAfter(s, a);
    FirstBought(a, owner, amount);
    TwoActions(s, a, RexLedger.BuyRex(a, owner, amount).value, Deposit(owner, amount), BuyRex(owner, amount));
  }

  lemma QuietAfter(s: State, a: State)
    requires Quiet(s) && a == s.(funds := a.funds, tokens := a.tokens)
    ensures Quiet(a)
  {
  }

  lemma TwoActions(s: State, a: State, t: State, first: Action, second: Action)
    requires Admissible(s, first) && Step(s, first) == Ok(a) && Admissible(a, second) && Step(a, second) == Ok(t)
    ensures AllAdmissible(s, [first, second]) && Run(s, [first, second]) == t
  {
    hide Step, Admissible;
    assert [first, second][1..] == [second] && [second][1..] == [];
    assert Run(a, [second]) == t && AllAdmissible(a, [second]);
  }

  /** Any fee in another token then leaves eosio.rex owing core tokens it does not have. */
  lemma ForeignFeeBreaks(s: State, owner: Name, amount: int, from: Name, fee: int)
    requires Genesis(s) && owner != REX_ACCOUNT && owner != STAKE_ACCOUNT && 0 < amount <= AmountOf(s.tokens, owner)
    requires from != REX_ACCOUNT && 0 < fee
    ensures var t := RexLedger.DistributeViaRex(Run(s, [Deposit(owner, amount), BuyRex(owner, amount)]), from, fee, false);
      t.Ok? && !Invariant(t.value)
  {
    hide Invariant, Run, AllAdmissible;
    var actions := [Deposit(owner, amount), BuyRex(owner, amount)];
    FirstPurchase(s, owner, amount);
    GenesisInvariant(s);
    RunKeepsInvariant(s, actions);
    DistributeViaRexExactly(Run(s, actions), from, fee, false);
  }

  /** A fee of nothing is refused whenever REX has tokens to lend, and with it the payment it is part of. */
  lemma NoFeeRefused(s: State, from: Name, amount: int, core: bool)
    requires Invariant(s) && s.pool.lendable > 0 && amount <= 0
    ensures RexLedger.DistributeViaRex(s, from, amount, core).Refused?
  {
    hide Sum, TokenBook, OwnerBook, StakeBook, TotalsBook;
  }
}
