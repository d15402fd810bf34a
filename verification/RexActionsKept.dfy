/** Each REX action keeps the books. */
module RexActionsKept {
  import opened ExchangeState
  import opened Outcomes
  import opened TableSums
  import opened RexMaturities
  import opened RexPool
  import opened SystemTables
  import opened RexLedger
  import opened SystemBooks
  import opened RexInvariant

  /** What every action guarantees: it never breaks, keeps the invariant, and never lowers the price of REX. */
  ghost predicate Safe(s: State, out: Outcome<State>) {
    !out.Broken? && (out.Ok? ==>
                       Invariant(out.value) && s.now <= out.value.now
                       && (s.pool.rex > 0 ==> PriceHolds(s.pool, out.value.pool)))
  }

  lemma KeepsSafe(s: State, out: Outcome<State>)
    requires Keeps(s, out, 0, 0, Delta(0, 0, 0))
    ensures Safe(s, out)
  {
    hide Books, PriceHolds, Balanced;
  }

  /** The same, after a step that has been shown to keep the books. */
  lemma ThenSafe(s: State, mid: State, g: int, h: int, d: Delta, out: Outcome<State>)
    requires Kept(s, mid, g, h, d) && Keeps(mid, out, 0, 0, Delta(0, 0, 0))
    ensures Safe(s, out)
  {
    hide Kept, Safe;
    Then(s, mid, g, h, d, out, 0, 0, Delta(0, 0, 0));
    KeepsSafe(s, out);
  }

  lemma DepositSafe(s: State, owner: Name, amount: int)
    requires Invariant(s) && owner != STAKE_ACCOUNT
    ensures Safe(s, Deposit(s, owner, amount))
  {
    hide Books, Kept, PriceHolds, TransferToFund;
    var out := Transfer(s, owner, REX_ACCOUNT, amount);
    if owner != REX_ACCOUNT && out.Ok? {
      TransferKeeps(s, owner, REX_ACCOUNT, amount, 0, 0, Delta(0, 0, 0));
      KeptHasBooks(s, out.value, amount, 0, Delta(0, 0, 0));
      ToFundKeeps(out.value, owner, amount, amount, 0, Delta(0, 0, 0));
      ThenSafe(s, out.value, amount, 0, Delta(0, 0, 0), Deposit(s, owner, amount));
    }
  }

  lemma WithdrawSafe(s: State, owner: Name, amount: int)
    requires Invariant(s) && owner != STAKE_ACCOUNT
    ensures Safe(s, Withdraw(s, owner, amount))
  {
    hide Books, Kept, PriceHolds, TransferFromFund, UpdateRexAccount, Transfer;
    if 0 < amount {
      UpdateRexAccountKeeps(s, owner, 0, 0, 0, Delta(0, 0, 0));
      var a := UpdateRexAccount(s, owner, 0).0;
      KeptHasBooks(s, a, 0, 0, Delta(0, 0, 0));
      FromFundKeeps(a, owner, amount, 0, 0, Delta(0, 0, 0));
      Then(s, a, 0, 0, Delta(0, 0, 0), TransferFromFund(a, owner, amount), amount, 0, Delta(0, 0, 0));
      if TransferFromFund(a, owner, amount).Ok? {
        var b := TransferFromFund(a, owner, amount).value;
        KeptHasBooks(s, b, amount, 0, Delta(0, 0, 0));
        PayOut(b, owner, amount);
        ThenSafe(s, b, amount, 0, Delta(0, 0, 0), Withdraw(s, owner, amount));
      }
    }
  }

  /** eosio.rex can pay out what has been taken from a fund. */
  lemma PayOut(s: State, owner: Name, amount: int)
    requires Books(s, amount, 0, Delta(0, 0, 0)) && owner != STAKE_ACCOUNT
    ensures Keeps(s, Transfer(s, REX_ACCOUNT, owner, amount), 0, 0, Delta(0, 0, 0))
  {
    hide PoolBook, TokenBook, OwnerBook, StakeBook, TotalsBook, Kept;
    FundCovered(AmountOf(s.tokens, REX_ACCOUNT), s.rexGifts, s.funds, s.cpuLoans, s.netLoans, s.pool.lendable, s.orders, amount);
    if owner != REX_ACCOUNT {
      TransferKeeps(s, REX_ACCOUNT, owner, amount, amount, 0, Delta(0, 0, 0));
    }
  }

  /** The end of buyrex and unstaketorex, from when the payment is in hand. */
  lemma BuyRunUpdateSafe(s: State, a: State, owner: Name, payment: int)
    requires Kept(s, a, payment, 0, Delta(0, 0, 0)) && 0 < payment && a.pool == s.pool
    ensures var bought := Buy(a, owner, payment);
      && bought.Ok?
      && var run := RunRex(bought.value, 2);
      && !run.Broken?
      && (run.Ok? ==> Safe(s, Ok(UpdateRexAccount(run.value, owner, 0).0)))
  {
    hide Books, Kept, PriceHolds, Buy, RunRex, UpdateRexAccount, Balanced;
    KeptHasBooks(s, a, payment, 0, Delta(0, 0, 0));
    BuyBooks(a, owner, payment, 0, Delta(0, 0, 0));
    var b := Buy(a, owner, payment).value;
    RunRexKeeps(b, 2);
    if RunRex(b, 2).Ok? {
      var run := RunRex(b, 2).value;
      KeptHasBooks(b, run, 0, 0, Delta(0, 0, 0));
      UpdateRexAccountKeeps(run, owner, 0, 0, 0, Delta(0, 0, 0));
      var t := UpdateRexAccount(run, owner, 0).0;
      Then(b, run, 0, 0, Delta(0, 0, 0), Ok(t), 0, 0, Delta(0, 0, 0));
      BoughtSafe(s, a, payment, b, t);
    }
  }

  /** If there was REX before the purchase there is REX after it, so the price argument goes through. */
  lemma BoughtSafe(s: State, a: State, payment: int, b: State, t: State)
    requires Kept(s, a, payment, 0, Delta(0, 0, 0)) && Kept(b, t, 0, 0, Delta(0, 0, 0)) && b.now == a.now && a.pool == s.pool
    requires a.pool.rex > 0 ==> PriceHolds(a.pool, b.pool)
    ensures Safe(s, Ok(t))
  {
    hide Books, Balanced, NotCheaper;
    if s.pool.rex > 0 {
      PriceTransitive(s.pool, b.pool, t.pool);
    }
  }

  lemma BuyRexSafe(s: State, from: Name, amount: int)
    requires Invariant(s)
    ensures Safe(s, BuyRex(s, from, amount))
  {
    hide Books, Kept, PriceHolds, Buy, RunRex, UpdateRexAccount, Balanced;
    FromFundKeeps(s, from, amount, 0, 0, Delta(0, 0, 0));
    if 0 < amount && TransferFromFund(s, from, amount).Ok? {
      BuyRunUpdateSafe(s, TransferFromFund(s, from, amount).value, from, amount);
    }
  }

  lemma UndelegateKeeps(s: State, owner: Name, receiver: Name, fromNet: int, fromCpu: int)
    requires Invariant(s) && 0 <= fromNet && 0 <= fromCpu && Undelegate(s, owner, receiver, fromNet, fromCpu).Ok?
    ensures var t := Undelegate(s, owner, receiver, fromNet, fromCpu).value;
      Kept(s, t, 0, fromNet + fromCpu, Delta(receiver, -fromNet, -fromCpu)) && t.pool == s.pool
  {
    hide Sum, PoolBook, TokenBook, OwnerBook, StakeBook, TotalsBook, Kept, WithDelegation;
    var key := (owner, receiver);
    var row := s.delegations[key];
    var left := Delegation(row.net - fromNet, row.cpu - fromCpu);
    StakeBookDelegation(AmountOf(s.tokens, STAKE_ACCOUNT), s.stakeGifts, s.delegations, s.refunds, 0, key, left);
    TotalsBookDelegation(s.totals, s.delegations, s.cpuLoans, s.netLoans, key, left);
    SamePool(s, Undelegate(s, owner, receiver, fromNet, fromCpu).value, 0, fromNet + fromCpu,
             Delta(receiver, -fromNet, -fromCpu));
  }

  /** The unstaked tokens move from eosio.stake to eosio.rex, which eosio.stake can always cover. */
  lemma UnstakedPaid(s: State, payment: int)
    requires Books(s, 0, payment, Delta(0, 0, 0))
    ensures Keeps(s, Transfer(s, STAKE_ACCOUNT, REX_ACCOUNT, payment), payment, 0, Delta(0, 0, 0))
  {
    hide PoolBook, TokenBook, OwnerBook, StakeBook, TotalsBook, Kept, Transfer;
    StakeCovered(AmountOf(s.tokens, STAKE_ACCOUNT), s.stakeGifts, s.delegations, s.refunds, payment);
    TransferKeeps(s, STAKE_ACCOUNT, REX_ACCOUNT, payment, 0, payment, Delta(0, 0, 0));
  }

  lemma UnstakeToRexSafe(s: State, owner: Name, receiver: Name, fromNet: int, fromCpu: int)
    requires Invariant(s)
    ensures Safe(s, UnstakeToRex(s, owner, receiver, fromNet, fromCpu))
  {
    hide Books, Kept, PriceHolds, Buy, RunRex, UpdateRexAccount, Balanced, Undelegate, UpdateResourceLimits;
    var payment := fromNet + fromCpu;
    if 0 <= fromNet && 0 <= fromCpu && 0 < payment {
      UndelegateNeverBreaks(s, owner, receiver, fromNet, fromCpu);
      if Undelegate(s, owner, receiver, fromNet, fromCpu).Ok? {
        UndelegateKeeps(s, owner, receiver, fromNet, fromCpu);
        var a := Undelegate(s, owner, receiver, fromNet, fromCpu).value;
        var d := Delta(receiver, -fromNet, -fromCpu);
        KeptHasBooks(s, a, 0, payment, d);
        UpdateLimitsKeeps(a, 0, payment, d);
        var b := UpdateResourceLimits(a, receiver, -fromNet, -fromCpu).value;
        Then(s, a, 0, payment, d, Ok(b), 0, payment, Delta(0, 0, 0));
        KeptHasBooks(s, b, 0, payment, Delta(0, 0, 0));
        UnstakedPaid(b, payment);
        Then(s, b, 0, payment, Delta(0, 0, 0), Transfer(b, STAKE_ACCOUNT, REX_ACCOUNT, payment), payment, 0, Delta(0, 0, 0));
        if Transfer(b, STAKE_ACCOUNT, REX_ACCOUNT, payment).Ok? {
          BuyRunUpdateSafe(s, Transfer(b, STAKE_ACCOUNT, REX_ACCOUNT, payment).value, owner, payment);
        }
      }
    }
  }

  lemma UndelegateNeverBreaks(s: State, owner: Name, receiver: Name, fromNet: int, fromCpu: int)
    ensures !Undelegate(s, owner, receiver, fromNet, fromCpu).Broken?
  {
  }

  // ---- rows of owners

  /** A balance row is rewritten without changing the REX in it. */
  lemma RowWrittenKeeps(s: State, owner: Name, row: Balance)
    requires Invariant(s) && owner in s.balances && row.rex == s.balances[owner].rex && Sound(row, s.Seconds(), 0)
    requires HasOpenOrder(s.orders, owner) ==> s.orders[owner].requested <= row.matured
    ensures Kept(s, WithRow(s, owner, row), 0, 0, Delta(0, 0, 0))
  {
    hide Sum, PoolBook, TokenBook, OwnerBook, StakeBook, TotalsBook, Kept, Sound, Balanced;
    InvariantPool(s);
    PoolBookRex(s.initialized, s.pool, s.cpuLoans, s.netLoans, s.balances, s.pool, owner, row);
    if HasOpenOrder(s.orders, owner) {
      PendingMatured(s.balances, s.orders, s.Seconds(), owner);
    }
    OwnerBookRow(s.balances, s.orders, s.Seconds(), owner, row);
    if !s.initialized {
      PoolBookUnused(s.pool, s.cpuLoans, s.netLoans, s.balances[owner := row]);
    }
    SamePool(s, WithRow(s, owner, row), 0, 0, Delta(0, 0, 0));
  }

  lemma PoolBookUnused(pool: Pool, cpu: map<int, Loan>, net: map<int, Loan>, balances: map<Name, Balance>)
    requires PoolBook(true, pool, cpu, net, balances) && Unused(pool)
    ensures PoolBook(false, pool, cpu, net, balances)
  {
    hide Sum;
  }

  lemma MaturedKeeps(s: State, owner: Name)
    requires Invariant(s) && owner in s.balances
    ensures Kept(s, WithMatured(s, owner), 0, 0, Delta(0, 0, 0))
  {
    hide Books, Kept, Mature, Sound, Clock, Due, Plain, Balanced;
    RowFacts(s, owner, 0, 0, Delta(0, 0, 0));
    MatureSound(s.balances[owner], s.Seconds(), 0);
    PendingCovered(s, 0, 0, Delta(0, 0, 0), owner);
    RowWrittenKeeps(s, owner, Mature(s.balances[owner], s.Seconds()));
  }

  // ---- sellrex

  lemma SellMaturedKeeps(s: State, from: Name, rex: int)
    requires Invariant(s) && from in s.balances && 0 < rex
    ensures Keeps(s, SellMatured(s, from, rex), 0, 0, Delta(0, 0, 0))
  {
    hide Books, Kept, FillOrder, UpdateRexAccount, Debit, Balanced;
    if rex <= s.balances[from].matured {
      RowFacts(s, from, 0, 0, Delta(0, 0, 0));
      FillOrderBalanced(s.pool, rex);
      match FillOrder(s.pool, rex).value
      case Filled(proceeds, q) =>
        SellFilledKeeps(s, from, rex, proceeds, q);
      case Unfilled =>
        SellQueuedKeeps(s, from, rex);
    }
  }

  lemma SellFilledKeeps(s: State, from: Name, rex: int, proceeds: int, q: Pool)
    requires Invariant(s) && from in s.balances && 0 < rex <= s.balances[from].matured
    requires FillOrder(s.pool, rex) == Ok(Filled(proceeds, q))
    ensures Keeps(s, SellMatured(s, from, rex), 0, 0, Delta(0, 0, 0))
  {
    hide Books, Kept, FillOrder, UpdateRexAccount, Debit, Balanced, Reserve;
    var debited := Sold(s, from, rex, q);
    UpdateRexAccountResult(debited, from, proceeds);
    SoldRow(s, from, rex, q);
    if !HasOpenOrder(s.orders, from) || s.orders[from].requested <= s.balances[from].matured - rex {
      SoldKeeps(s, from, rex, q, proceeds, 0);
      KeptHasBooks(s, debited, proceeds, 0, Delta(0, 0, 0));
      UpdateRexAccountKeeps(debited, from, proceeds, proceeds, 0, Delta(0, 0, 0));
      Then(s, debited, proceeds, 0, Delta(0, 0, 0), Ok(UpdateRexAccount(debited, from, proceeds).0), 0, 0,
           Delta(0, 0, 0));
    }
  }

  lemma SoldRow(s: State, from: Name, rex: int, q: Pool)
    requires from in s.balances
    ensures from in Sold(s, from, rex, q).balances
    ensures Sold(s, from, rex, q).balances[from].matured == s.balances[from].matured - rex
  {
  }

  lemma UpdateRexAccountResult(s: State, owner: Name, proceeds: int)
    ensures UpdateRexAccount(s, owner, proceeds).1
         == if HasOpenOrder(s.orders, owner) then s.orders[owner].requested else 0
  {
  }

  lemma SellQueuedKeeps(s: State, from: Name, rex: int)
    requires Invariant(s) && from in s.balances && 0 < rex <= s.balances[from].matured
    requires FillOrder(s.pool, rex) == Ok(Unfilled)
    ensures Keeps(s, SellMatured(s, from, rex), 0, 0, Delta(0, 0, 0))
  {
    hide Books, Kept, FillOrder, UpdateRexAccount, Debit, Share;
    UpdateRexAccountKeeps(s, from, 0, 0, 0, Delta(0, 0, 0));
    UpdateRexAccountFrame(s, from, 0);
    var t := UpdateRexAccount(s, from, 0).0;
    KeptHasBooks(s, t, 0, 0, Delta(0, 0, 0));
    PendingCovered(s, 0, 0, Delta(0, 0, 0), from);
    var order := if from in t.orders then t.orders[from].(requested := t.orders[from].requested + rex)
                 else Order(rex, 0, s.now, true);
    if from != B1 && order.requested <= s.balances[from].matured {
      NoneUnclaimed(t.orders, from);
      OrderWrittenBooks(t, from, order, 0);
      Then(s, t, 0, 0, Delta(0, 0, 0), SellMatured(s, from, rex), 0, 0, Delta(0, 0, 0));
    }
  }

  lemma NoneUnclaimed(orders: map<Name, Order>, n: Name)
    requires n in orders ==> orders[n].isOpen
    ensures Share(orders, Unclaimed, n) == 0
  {
  }

  lemma SellRexSafe(s: State, from: Name, rex: int)
    requires Invariant(s)
    ensures Safe(s, SellRex(s, from, rex))
  {
    hide Books, Kept, Safe, RunRex, SellMatured, WithMatured;
    RunRexKeeps(s, 2);
    if RunRex(s, 2).Ok? && from in RunRex(s, 2).value.balances && rex > 0 {
      var run := RunRex(s, 2).value;
      KeptHasBooks(s, run, 0, 0, Delta(0, 0, 0));
      MaturedKeeps(run, from);
      var t := WithMatured(run, from);
      Then(s, run, 0, 0, Delta(0, 0, 0), Ok(t), 0, 0, Delta(0, 0, 0));
      KeptHasBooks(s, t, 0, 0, Delta(0, 0, 0));
      MaturedKeepsOwner(run, from);
      SellMaturedKeeps(t, from, rex);
      ThenSafe(s, t, 0, 0, Delta(0, 0, 0), SellRex(s, from, rex));
    } else {
      RefusedIsSafe(s, SellRex(s, from, rex));
    }
  }

  lemma MaturedKeepsOwner(s: State, owner: Name)
    requires owner in s.balances
    ensures owner in WithMatured(s, owner).balances
  {
  }

  lemma RefusedIsSafe(s: State, out: Outcome<State>)
    requires out.Refused?
    ensures Safe(s, out)
  {
  }

  lemma CancelRexOrderSafe(s: State, owner: Name)
    requires Invariant(s)
    ensures Safe(s, CancelRexOrder(s, owner))
  {
    hide Sum, PoolBook, TokenBook, StakeBook, TotalsBook, Sound, Clock, Kept, Safe;
    if HasOpenOrder(s.orders, owner) {
      TokenBookEraseOrder(AmountOf(s.tokens, REX_ACCOUNT), s.rexGifts, s.funds, s.cpuLoans, s.netLoans, s.pool.lendable,
                          s.orders, 0, owner);
      SamePool(s, s.(orders := s.orders - {owner}), 0, 0, Delta(0, 0, 0));
      KeepsSafe(s, CancelRexOrder(s, owner));
    } else {
      RefusedIsSafe(s, CancelRexOrder(s, owner));
    }
  }

  // ---- loans

  lemma RentSafe(s: State, res: Resource, from: Name, receiver: Name, payment: int, fund: int)
    requires Invariant(s)
    ensures Safe(s, Rent(s, res, from, receiver, payment, fund))
  {
    hide Books, Kept, Safe, RunRex, OpenLoan, TransferFromFund, LoansAvailable;
    RunRexKeeps(s, 2);
    var out := Rent(s, res, from, receiver, payment, fund);
    if RunRex(s, 2).Ok? && LoansAvailable(RunRex(s, 2).value) && 0 < payment && 0 <= fund {
      var run := RunRex(s, 2).value;
      KeptHasBooks(s, run, 0, 0, Delta(0, 0, 0));
      FromFundKeeps(run, from, payment + fund, 0, 0, Delta(0, 0, 0));
      Then(s, run, 0, 0, Delta(0, 0, 0), TransferFromFund(run, from, payment + fund), payment + fund, 0, Delta(0, 0, 0));
      if TransferFromFund(run, from, payment + fund).Ok? {
        var t := TransferFromFund(run, from, payment + fund).value;
        FundedAvailable(run, from, payment + fund);
        KeptHasBooks(s, t, payment + fund, 0, Delta(0, 0, 0));
        OpenLoanKeeps(t, res, from, receiver, payment, fund);
        ThenSafe(s, t, payment + fund, 0, Delta(0, 0, 0), out);
      } else {
        RefusedIsSafe(s, out);
      }
    } else {
      RefusedIsSafe(s, out);
    }
  }

  lemma FundedAvailable(s: State, from: Name, amount: int)
    requires LoansAvailable(s) && TransferFromFund(s, from, amount).Ok?
    ensures LoansAvailable(TransferFromFund(s, from, amount).value)
  {
  }

  /** A new loan takes its payment and its fund, and its number is always fresh. */
  lemma OpenLoanKeeps(s: State, res: Resource, from: Name, receiver: Name, payment: int, fund: int)
    requires Books(s, payment + fund, 0, Delta(0, 0, 0)) && LoansAvailable(s) && 0 < payment && 0 <= fund
    ensures Keeps(s, OpenLoan(s, res, from, receiver, payment, fund), 0, 0, Delta(0, 0, 0))
  {
    hide Books, Kept, Balanced, PriceHolds, BancorOutput, AddLoan, UpdateLimit, NoOpenOrders, Share;
    PoolIsBalanced(s, payment + fund, 0, Delta(0, 0, 0));
    BalancedNonNegative(s.pool);
    BancorFloor(s.pool.rent, s.pool.unlent, payment);
    var rented := BancorOutput(s.pool.rent, s.pool.unlent, payment).value;
    if payment < rented {
      AddLoanBalanced(s.pool, payment, rented, true);
      AddLoanNumber(s.pool, payment, rented, true);
      var q := AddLoan(s.pool, payment, rented, true);
      FreshNumber(s, res, payment + fund);
      var loan := Loan(from, receiver, payment, fund, rented, s.now + LOAN_TERM);
      NoShare(LoansOf(s, res), q.loanNum);
      LoanWrittenKeeps(s, res, q, q.loanNum, loan, payment + fund);
      var t := LoanWritten(s, res, q, q.loanNum, loan);
      KeptHasBooks(s, t, 0, 0, ChangeFor(res, receiver, rented));
      UpdateLimitKeeps(t, res, receiver, rented, 0);
      Then(s, t, 0, 0, ChangeFor(res, receiver, rented), UpdateLimit(t, receiver, res, rented), 0, 0, Delta(0, 0, 0));
    }
  }

  lemma FreshNumber(s: State, res: Resource, g: int)
    requires Books(s, g, 0, Delta(0, 0, 0))
    ensures s.pool.loanNum + 1 !in LoansOf(s, res)
  {
    hide Sum, TokenBook, OwnerBook, StakeBook, TotalsBook, Balanced;
  }

  lemma NoShare(loans: map<int, Loan>, k: int)
    requires k !in loans
    ensures Share(loans, LoanStake, k) == 0 && Share(loans, LoanFund, k) == 0
  {
  }

  lemma FullShare(loans: map<int, Loan>, k: int)
    requires k in loans
    ensures Share(loans, LoanStake, k) == loans[k].staked && Share(loans, LoanFund, k) == loans[k].balance
  {
  }

  /** Changing the fund of a loan. */
  lemma LoanFundKeeps(s: State, res: Resource, k: int, balance: int, g: int)
    requires Books(s, g, 0, Delta(0, 0, 0)) && k in LoansOf(s, res) && 0 <= balance
    ensures var loans := LoansOf(s, res);
      Kept(s, WithLoans(s, res, loans[k := loans[k].(balance := balance)]), g + loans[k].balance - balance, 0, Delta(0, 0, 0))
  {
    hide Books, Kept, Balanced, Share;
    var loan := LoansOf(s, res)[k];
    LoanFacts(s, res, k, g);
    FullShare(LoansOf(s, res), k);
    LoanWrittenKeeps(s, res, s.pool, k, loan.(balance := balance), g);
    assert LoanWritten(s, res, s.pool, k, loan.(balance := balance))
        == WithLoans(s, res, LoansOf(s, res)[k := loan.(balance := balance)]);
    NothingToEnter(s, LoanWritten(s, res, s.pool, k, loan.(balance := balance)), res, loan.receiver, g + loan.balance - balance);
  }

  lemma NothingToEnter(s: State, t: State, res: Resource, who: Name, g: int)
    requires Kept(s, t, g, 0, ChangeFor(res, who, 0))
    ensures Kept(s, t, g, 0, Delta(0, 0, 0))
  {
    hide Sum, PoolBook, TokenBook, OwnerBook, StakeBook, TotalsBook, Balanced, PriceHolds;
    TotalsBookEnter(t.totals, t.delegations, t.cpuLoans, t.netLoans, ChangeFor(res, who, 0), t.totals);
  }

  lemma FundLoanSafe(s: State, res: Resource, from: Name, k: int, payment: int)
    requires Invariant(s)
    ensures Safe(s, FundLoan(s, res, from, k, payment))
  {
    hide Books, Kept, Safe;
    var out := FundLoan(s, res, from, k, payment);
    FromFundKeeps(s, from, payment, 0, 0, Delta(0, 0, 0));
    if out.Ok? {
      var t := TransferFromFund(s, from, payment).value;
      KeptHasBooks(s, t, payment, 0, Delta(0, 0, 0));
      LoanFacts(s, res, k, 0);
      assert LoansOf(t, res) == LoansOf(s, res);
      LoanFundKeeps(t, res, k, LoansOf(s, res)[k].balance + payment, payment);
      ThenSafe(s, t, payment, 0, Delta(0, 0, 0), out);
    } else {
      RefusedIsSafe(s, out);
    }
  }

  lemma DefundLoanSafe(s: State, res: Resource, from: Name, k: int, amount: int)
    requires Invariant(s)
    ensures Safe(s, DefundLoan(s, res, from, k, amount))
  {
    hide Books, Kept, Safe;
    var out := DefundLoan(s, res, from, k, amount);
    if out.Ok? {
      var loans := LoansOf(s, res);
      var t := WithLoans(s, res, loans[k := loans[k].(balance := loans[k].balance - amount)]);
      LoanFundKeeps(s, res, k, loans[k].balance - amount, 0);
      KeptHasBooks(s, t, amount, 0, Delta(0, 0, 0));
      ToFundKeeps(t, from, amount, amount, 0, Delta(0, 0, 0));
      ThenSafe(s, t, amount, 0, Delta(0, 0, 0), out);
    } else {
      RefusedIsSafe(s, out);
    }
  }

  // ---- the rest of rex.cpp

  lemma SetRexSafe(s: State, balance: int)
    requires Invariant(s)
    ensures Safe(s, SetRex(s, balance))
  {
    hide Books, Kept, Safe, Balanced, PriceHolds;
    var out := SetRex(s, balance);
    if out.Ok? {
      InvariantPool(s);
      RentBalanced(s.pool, balance);
      PoolWrittenKeeps(s, s.pool.(rent := balance), 0);
      KeepsSafe(s, out);
    } else {
      RefusedIsSafe(s, out);
    }
  }

  lemma RentBalanced(p: Pool, rent: int)
    requires Balanced(p) && 0 < rent
    ensures Balanced(p.(rent := rent)) && PriceHolds(p, p.(rent := rent))
  {
  }

  lemma RexExecSafe(s: State, max: nat)
    requires Invariant(s)
    ensures Safe(s, RunRex(s, max))
  {
    hide Books, Kept, RunRex;
    RunRexKeeps(s, max);
    KeepsSafe(s, RunRex(s, max));
  }

  /** runrex and then update_rex_account, as most actions of an owner do. */
  lemma RunUpdate(s: State, owner: Name)
    requires Invariant(s) && RunRex(s, 2).Ok?
    ensures var run := RunRex(s, 2).value;
      Kept(s, UpdateRexAccount(run, owner, 0).0, 0, 0, Delta(0, 0, 0))
  {
    hide Books, Kept, RunRex, UpdateRexAccount;
    RunRexKeeps(s, 2);
    var run := RunRex(s, 2).value;
    KeptHasBooks(s, run, 0, 0, Delta(0, 0, 0));
    UpdateRexAccountKeeps(run, owner, 0, 0, 0, Delta(0, 0, 0));
    Then(s, run, 0, 0, Delta(0, 0, 0), Ok(UpdateRexAccount(run, owner, 0).0), 0, 0, Delta(0, 0, 0));
  }

  lemma UpdateRexSafe(s: State, owner: Name)
    requires Invariant(s)
    ensures Safe(s, UpdateRex(s, owner))
  {
    hide Books, Kept, Safe, RunRex, UpdateRexAccount, WithMatured;
    RunRexKeeps(s, 2);
    var out := UpdateRex(s, owner);
    if RunRex(s, 2).Ok? && owner in RunRex(s, 2).value.balances {
      var run := RunRex(s, 2).value;
      RunUpdate(s, owner);
      UpdateRexAccountFrame(run, owner, 0);
      var t := UpdateRexAccount(run, owner, 0).0;
      KeptHasBooks(s, t, 0, 0, Delta(0, 0, 0));
      MaturedKeeps(t, owner);
      ThenSafe(s, t, 0, 0, Delta(0, 0, 0), out);
    } else {
      RefusedIsSafe(s, out);
    }
  }

  lemma ConsolidateRexSafe(s: State, owner: Name)
    requires Invariant(s)
    ensures Safe(s, ConsolidateRex(s, owner))
  {
    hide Books, Kept, Safe, RunRex, UpdateRexAccount, Consolidate, Sound, Clock, Balanced;
    RunRexKeeps(s, 2);
    var out := ConsolidateRex(s, owner);
    if RunRex(s, 2).Ok? && owner in RunRex(s, 2).value.balances {
      var run := RunRex(s, 2).value;
      RunUpdate(s, owner);
      UpdateRexAccountFrame(run, owner, 0);
      var t, pending := UpdateRexAccount(run, owner, 0).0, UpdateRexAccount(run, owner, 0).1;
      KeptHasBooks(s, t, 0, 0, Delta(0, 0, 0));
      PendingCovered(t, 0, 0, Delta(0, 0, 0), owner);
      RowFacts(t, owner, 0, 0, Delta(0, 0, 0));
      KeptHasBooks(s, run, 0, 0, Delta(0, 0, 0));
      ConsolidateSound(t.balances[owner], pending, s.Seconds());
      RowWrittenKeeps(t, owner, Consolidate(t.balances[owner], pending, s.Seconds()));
      ThenSafe(s, t, 0, 0, Delta(0, 0, 0), out);
    } else {
      RefusedIsSafe(s, out);
    }
  }

  lemma MoveRexToSavingsSafe(s: State, owner: Name, rex: int)
    requires Invariant(s)
    ensures Safe(s, MoveRexToSavings(s, owner, rex))
  {
    hide Books, Kept, Safe, RunRex, UpdateRexAccount, MoveToSavings, Sound, Clock, Balanced, Mature, WithoutSavings, Savings;
    RunRexKeeps(s, 2);
    var out := MoveRexToSavings(s, owner, rex);
    if RunRex(s, 2).Ok? && owner in RunRex(s, 2).value.balances && rex > 0 {
      var run := RunRex(s, 2).value;
      RunUpdate(s, owner);
      UpdateRexAccountFrame(run, owner, 0);
      var t, pending := UpdateRexAccount(run, owner, 0).0, UpdateRexAccount(run, owner, 0).1;
      KeptHasBooks(s, t, 0, 0, Delta(0, 0, 0));
      PendingCovered(t, 0, 0, Delta(0, 0, 0), owner);
      RowFacts(t, owner, 0, 0, Delta(0, 0, 0));
      KeptHasBooks(s, run, 0, 0, Delta(0, 0, 0));
      MoveToSavingsSound(t.balances[owner], rex, pending, s.Seconds());
      if out.Ok? {
        RowWrittenKeeps(t, owner, MoveToSavings(t.balances[owner], rex, pending, s.Seconds()).value);
        ThenSafe(s, t, 0, 0, Delta(0, 0, 0), out);
      } else {
        RefusedIsSafe(s, out);
      }
    } else {
      RefusedIsSafe(s, out);
    }
  }

  lemma MoveRexFromSavingsSafe(s: State, owner: Name, rex: int)
    requires Invariant(s)
    ensures Safe(s, MoveRexFromSavings(s, owner, rex))
  {
    hide Books, Kept, Safe, RunRex, UpdateRexAccount, MoveFromSavings, Sound, Clock, Balanced, Savings;
    RunRexKeeps(s, 2);
    var out := MoveRexFromSavings(s, owner, rex);
    if RunRex(s, 2).Ok? && owner in RunRex(s, 2).value.balances && rex > 0 {
      var run := RunRex(s, 2).value;
      KeptHasBooks(s, run, 0, 0, Delta(0, 0, 0));
      RowFacts(run, owner, 0, 0, Delta(0, 0, 0));
      PendingCovered(run, 0, 0, Delta(0, 0, 0), owner);
      MoveFromSavingsSound(run.balances[owner], rex, s.Seconds());
      if MoveFromSavings(run.balances[owner], rex, s.Seconds()).Ok? {
        var t := WithRow(run, owner, MoveFromSavings(run.balances[owner], rex, s.Seconds()).value);
        RowWrittenKeeps(run, owner, MoveFromSavings(run.balances[owner], rex, s.Seconds()).value);
        Then(s, run, 0, 0, Delta(0, 0, 0), Ok(t), 0, 0, Delta(0, 0, 0));
        KeptHasBooks(s, t, 0, 0, Delta(0, 0, 0));
        UpdateRexAccountKeeps(t, owner, 0, 0, 0, Delta(0, 0, 0));
        ThenSafe(s, t, 0, 0, Delta(0, 0, 0), out);
      } else {
        RefusedIsSafe(s, out);
      }
    } else {
      RefusedIsSafe(s, out);
    }
  }

  /** An empty fund row may go. */
  lemma EraseFundKeeps(s: State, owner: Name)
    requires Invariant(s) && owner in s.funds && s.funds[owner] == 0
    ensures Kept(s, s.(funds := s.funds - {owner}), 0, 0, Delta(0, 0, 0))
  {
    hide PoolBook, TokenBook, OwnerBook, StakeBook, TotalsBook, Kept;
    TokenBookEraseFund(AmountOf(s.tokens, REX_ACCOUNT), s.rexGifts, s.funds, s.cpuLoans, s.netLoans, s.pool.lendable, s.orders,
                       0, owner);
    SamePool(s, s.(funds := s.funds - {owner}), 0, 0, Delta(0, 0, 0));
  }

  /** So may a balance row without REX: its owner has no open order. */
  lemma EraseBalanceKeeps(s: State, owner: Name)
    requires Invariant(s) && owner in s.balances && s.balances[owner].rex == 0
    ensures Kept(s, s.(balances := s.balances - {owner}), 0, 0, Delta(0, 0, 0))
  {
    hide Sum, PoolBook, TokenBook, OwnerBook, StakeBook, TotalsBook, Kept, Sound;
    RowFacts(s, owner, 0, 0, Delta(0, 0, 0));
    if HasOpenOrder(s.orders, owner) {
      PendingMatured(s.balances, s.orders, s.Seconds(), owner);
    }
    OwnerBookErase(s.balances, s.orders, s.Seconds(), owner);
    PoolBookEraseRow(s.initialized, s.pool, s.cpuLoans, s.netLoans, s.balances, owner);
    SamePool(s, s.(balances := s.balances - {owner}), 0, 0, Delta(0, 0, 0));
  }

  lemma OwnerBookErase(balances: map<Name, Balance>, orders: map<Name, Order>, sec: int, owner: Name)
    requires OwnerBook(balances, orders, sec) && !HasOpenOrder(orders, owner)
    ensures OwnerBook(balances - {owner}, orders, sec)
  {
    hide Sound, Clock;
    forall n | n in orders && orders[n].isOpen
      ensures Covered(balances - {owner}, orders[n], n)
    {
      assert Covered(balances, orders[n], n);
    }
  }

  lemma PoolBookEraseRow(initialized: bool, pool: Pool, cpu: map<int, Loan>, net: map<int, Loan>, balances: map<Name, Balance>,
                         owner: Name)
    requires PoolBook(initialized, pool, cpu, net, balances) && owner in balances && balances[owner].rex == 0
    ensures PoolBook(initialized, pool, cpu, net, balances - {owner})
  {
    hide Sum;
    SumErase(balances, Held, owner);
  }

  /** The two erasures of closerex. */
  lemma CloseRowsKeeps(s: State, owner: Name)
    requires Invariant(s)
    ensures Keeps(s, CloseRows(s, owner), 0, 0, Delta(0, 0, 0))
  {
    hide Books, Kept, UpdateRexAccount, NoLoansOf;
    UpdateRexAccountKeeps(s, owner, 0, 0, 0, Delta(0, 0, 0));
    var a := UpdateRexAccount(s, owner, 0).0;
    KeptHasBooks(s, a, 0, 0, Delta(0, 0, 0));
    var b := a;
    if NoLoansOf(a.cpuLoans, owner) && NoLoansOf(a.netLoans, owner) && owner in a.funds && a.funds[owner] == 0 {
      EraseFundKeeps(a, owner);
      b := a.(funds := a.funds - {owner});
      Then(s, a, 0, 0, Delta(0, 0, 0), Ok(b), 0, 0, Delta(0, 0, 0));
      KeptHasBooks(s, b, 0, 0, Delta(0, 0, 0));
    }
    if owner in b.balances && b.balances[owner].rex == 0 {
      EraseBalanceKeeps(b, owner);
      Then(s, b, 0, 0, Delta(0, 0, 0), Ok(b.(balances := b.balances - {owner})), 0, 0, Delta(0, 0, 0));
    }
  }

  lemma CloseRexSafe(s: State, owner: Name)
    requires Invariant(s)
    ensures Safe(s, CloseRex(s, owner))
  {
    hide Books, Kept, Safe, RunRex, CloseRows;
    var out := CloseRex(s, owner);
    if s.initialized {
      RunRexKeeps(s, 2);
      if RunRex(s, 2).Ok? {
        var run := RunRex(s, 2).value;
        KeptHasBooks(s, run, 0, 0, Delta(0, 0, 0));
        CloseRowsKeeps(run, owner);
        ThenSafe(s, run, 0, 0, Delta(0, 0, 0), out);
      } else {
        RefusedIsSafe(s, out);
      }
    } else {
      CloseRowsKeeps(s, owner);
      KeepsSafe(s, out);
    }
  }

  lemma ChannelNamebidSafe(s: State, highestBid: int)
    requires Invariant(s)
    ensures Safe(s, Ok(ChannelNamebid(s, highestBid)))
  {
    hide Books, Kept, Safe, Balanced, PriceHolds;
    InvariantPool(s);
    InvariantKept(s);
    NamebidBalanced(s.pool, s.pool.namebid + highestBid);
    if RexAvailable(s) {
      PoolWrittenKeeps(s, s.pool.(namebid := s.pool.namebid + highestBid), 0);
    }
    KeepsSafe(s, Ok(ChannelNamebid(s, highestBid)));
  }

  lemma DistributeViaRexSafe(s: State, from: Name, amount: int)
    requires Invariant(s) && from != STAKE_ACCOUNT
    ensures Safe(s, DistributeViaRex(s, from, amount, true))
  {
    hide Books, Kept, Safe, ChannelToRex;
    ChannelToRexKeeps(s, from, amount, false);
    KeepsSafe(s, DistributeViaRex(s, from, amount, true));
  }
}
