/** REX that has just been bought stays with its owner: no run of actions makes it sellable within four days. */
module RexLocked {
  import opened Outcomes
  import opened RexMaturities
  import opened RexPool
  import opened SystemTables
  import opened RexLedger
  import Bandwidth
  import SystemActions
  import opened SystemBooks
  import opened RexInvariant
  import opened RexActionsKept
  import SystemSafety

  /** The REX of an owner that cannot be sold by time `at`. */
  function LockedIn(rows: map<Name, Balance>, n: Name, at: int): int {
    if n in rows then rows[n].rex - SellableAt(rows[n], at) else 0
  }

  /** Nobody's REX comes free earlier in t than in s, and no refund changes. */
  ghost predicate Locks(s: State, t: State, at: int) {
    t.now == s.now && t.refunds == s.refunds && forall n :: LockedIn(s.balances, n, at) <= LockedIn(t.balances, n, at)
  }

  ghost predicate KeepsLocked(s: State, out: Outcome<State>, at: int) {
    out.Ok? ==> Locks(s, out.value, at)
  }

  /** No balance row and no refund changes. */
  ghost predicate Still(s: State, out: Outcome<State>) {
    out.Ok? ==> out.value.now == s.now && out.value.balances == s.balances && out.value.refunds == s.refunds
  }

  /** No balance row changes. */
  ghost predicate StillRex(s: State, out: Outcome<State>) {
    out.Ok? ==> out.value.now == s.now && out.value.balances == s.balances
  }

  /** The times the results are about: from now to four days ahead. */
  predicate Near(s: State, at: int) {
    s.Seconds() <= at <= s.Seconds() + 345600 && at < 4294967295
  }

  lemma StillLocks(s: State, out: Outcome<State>, at: int)
    requires Still(s, out)
    ensures KeepsLocked(s, out, at)
  {
  }

  lemma LocksFrom(s: State, mid: State, out: Outcome<State>, at: int)
    requires Locks(s, mid, at) && KeepsLocked(mid, out, at)
    ensures KeepsLocked(s, out, at)
  {
    hide LockedIn;
    if out.Ok? {
      forall n
        ensures LockedIn(s.balances, n, at) <= LockedIn(out.value.balances, n, at)
      {
        assert LockedIn(s.balances, n, at) <= LockedIn(mid.balances, n, at);
      }
    }
  }

  lemma RowLocks(s: State, owner: Name, row: Balance, at: int)
    requires LockedIn(s.balances, owner, at) <= row.rex - SellableAt(row, at)
    ensures Locks(s, WithRow(s, owner, row), at)
  {
    hide SellableAt;
  }

  // ---- the operations that write a balance row

  lemma CreditLocks(b: Balance, received: int, sec: int, at: int)
    requires sec <= at <= sec + 345600 && at < 4294967295
    ensures Credit(b, received, sec).rex == b.rex + received
    ensures SellableAt(Credit(b, received, sec), at) == SellableAt(b, at)
  {
    hide Credit, SellableAt;
    CreditFiled(b, received, sec);
    var m :| FiledFor(b, Credit(b, received, sec), received, sec, m);
  }

  /** What a purchase puts into the owner's row is locked for four days. */
  lemma BuyLocks(s: State, owner: Name, payment: int, at: int)
    requires Near(s, at) && Buy(s, owner, payment).Ok?
    ensures var t := Buy(s, owner, payment).value;
      && t.now == s.now && t.refunds == s.refunds
      && LockedIn(t.balances, owner, at)
         == LockedIn(s.balances, owner, at) + AddToPool(s.pool, s.initialized, payment).value.1
      && forall n :: n != owner ==> LockedIn(t.balances, n, at) == LockedIn(s.balances, n, at)
  {
    hide AddToPool, Credit, SellableAt;
    var row := if owner in s.balances then s.balances[owner] else Balance(0, 0, []);
    CreditLocks(row, AddToPool(s.pool, s.initialized, payment).value.1, s.Seconds(), at);
    EmptyLocks(at);
  }

  lemma EmptyLocks(at: int)
    ensures SellableAt(Balance(0, 0, []), at) == 0
  {
  }

  lemma BuyKeepsLocked(s: State, owner: Name, payment: int, at: int)
    requires Near(s, at) && Buy(s, owner, payment).Ok? && 0 <= AddToPool(s.pool, s.initialized, payment).value.1
    ensures Locks(s, Buy(s, owner, payment).value, at)
  {
    hide LockedIn, Buy, AddToPool;
    BuyLocks(s, owner, payment, at);
  }

  lemma FillQueuedLocks(s: State, owner: Name, at: int)
    requires owner in s.orders
    ensures KeepsLocked(s, FillQueued(s, owner), at)
  {
    hide RexPool.FillOrder;
  }

  lemma {:induction false} RunOrdersLocks(s: State, after: (int, int), max: nat, at: int)
    ensures KeepsLocked(s, RunOrders(s, after, max), at)
    decreases max
  {
    hide FillQueued, Locks;
    if max == 0 || OpenAfter(s.orders, after) == {} {
      NothingLocks(s, at);
    } else {
      var first := Least(OpenAfter(s.orders, after));
      FillQueuedLocks(s, first.1, at);
      if FillQueued(s, first.1).Ok? {
        var next := FillQueued(s, first.1).value;
        RunOrdersLocks(next, first, max - 1, at);
        LocksFrom(s, next, RunOrders(next, first, max - 1), at);
      }
    }
  }

  lemma NothingLocks(s: State, at: int)
    ensures Locks(s, s, at)
  {
  }

  // ---- runrex

  lemma LimitsStill(s: State, receiver: Name, res: Resource, delta: int)
    ensures Still(s, UpdateLimit(s, receiver, res, delta))
  {
    hide UpdateResourceLimits;
    ResourcesStill(s, receiver, 0, delta);
    ResourcesStill(s, receiver, delta, 0);
  }

  lemma RenewStill(s: State, res: Resource, k: int, rented: int)
    requires k in LoansOf(s, res)
    ensures Still(s, Ok(RenewLoan(s, res, k, rented)))
  {
    hide AddLoan;
  }

  lemma CloseStill(s: State, res: Resource, k: int)
    requires k in LoansOf(s, res)
    ensures Still(s, CloseLoan(s, res, k))
  {
    hide TransferToFund;
    var loan := LoansOf(s, res)[k];
    FundBackStill(WithLoans(s, res, LoansOf(s, res) - {k}), loan.from, loan.balance);
  }

  lemma RenewOrCloseStill(s: State, res: Resource, k: int, rented: int)
    requires k in LoansOf(s, res)
    ensures Still(s, RenewOrClose(s, res, k, rented))
  {
    hide UpdateLimit, RenewLoan, CloseLoan, Renews;
    var loan := LoansOf(s, res)[k];
    RenewStill(s, res, k, rented);
    CloseStill(s, res, k);
    LimitsStill(RenewLoan(s, res, k, rented), loan.receiver, res, rented - loan.staked);
    if CloseLoan(s, res, k).Ok? {
      LimitsStill(CloseLoan(s, res, k).value, loan.receiver, res, -loan.staked);
    }
  }

  lemma ProcessExpiredStill(s: State, res: Resource, k: int)
    requires k in LoansOf(s, res)
    ensures Still(s, ProcessExpired(s, res, k))
  {
    hide RemoveLoan, ExchangeState.BancorOutput, RenewOrClose;
    var loan := LoansOf(s, res)[k];
    var pool := RemoveLoan(s.pool, loan.staked);
    if pool.Ok? {
      var rented := ExchangeState.BancorOutput(pool.value.rent, pool.value.unlent, loan.payment);
      if rented.Ok? {
        RenewOrCloseStill(s.(pool := pool.value), res, k, rented.value);
      }
    }
  }

  lemma {:induction false} RunLoansStill(s: State, res: Resource, max: nat)
    ensures Still(s, RunLoans(s, res, max))
    decreases max
  {
    hide ProcessExpired;
    var index := ByExpiry(LoansOf(s, res));
    if max == 0 || index == {} {
    } else {
      var (expiration, k) := Least(index);
      if expiration > s.now {
      } else {
        ProcessExpiredStill(s, res, k);
        if ProcessExpired(s, res, k).Ok? {
          RunLoansStill(ProcessExpired(s, res, k).value, res, max - 1);
        }
      }
    }
  }

  lemma ChannelNamebidsStill(s: State)
    ensures Still(s, ChannelNamebids(s))
  {
    hide Transfer;
    TransferStill(s.(pool := AddFee(s.pool, s.pool.namebid)), NAMES_ACCOUNT, REX_ACCOUNT, s.pool.namebid);
  }

  lemma RunRexLocks(s: State, max: nat, at: int)
    ensures KeepsLocked(s, RunRex(s, max), at)
  {
    hide ChannelNamebids, RunLoans, RunOrders, LockedIn;
    ChannelNamebidsStill(s);
    if ChannelNamebids(s).Ok? {
      var a := ChannelNamebids(s).value;
      RunLoansStill(a, Cpu, max);
      if RunLoans(a, Cpu, max).Ok? {
        var b := RunLoans(a, Cpu, max).value;
        RunLoansStill(b, Net, max);
        if RunLoans(b, Net, max).Ok? {
          RunOrdersLocks(RunLoans(b, Net, max).value, (-1, -1), max, at);
        }
      }
    }
  }

  /** runrex and update_rex_account free nothing, and what follows them finds the books right. */
  lemma RunUpdateLocks(s: State, owner: Name, at: int)
    requires Invariant(s) && RunRex(s, 2).Ok?
    ensures var run := RunRex(s, 2).value;
      var (updated, pending) := UpdateRexAccount(run, owner, 0);
      && Locks(s, run, at) && Locks(s, updated, at)
      && Invariant(run) && run.now == s.now && Invariant(updated) && updated.now == s.now
      && updated.balances == run.balances
      && (owner in updated.balances ==>
            && Sound(updated.balances[owner], s.Seconds(), 0) && Clock(s.Seconds())
            && 0 <= pending <= updated.balances[owner].matured)
  {
    hide Books, Kept, RunRex, UpdateRexAccount, Locks, Sound, Clock, Balanced;
    RunRexLocks(s, 2, at);
    RunRexKeeps(s, 2);
    var run := RunRex(s, 2).value;
    RunUpdate(s, owner);
    UpdateRexAccountFrame(run, owner, 0);
    var (updated, pending) := UpdateRexAccount(run, owner, 0);
    KeptHasBooks(s, updated, 0, 0, Delta(0, 0, 0));
    KeptHasBooks(s, run, 0, 0, Delta(0, 0, 0));
    SameBalances(s, run, updated, at);
    if owner in updated.balances {
      RowFacts(updated, owner, 0, 0, Delta(0, 0, 0));
      PendingCovered(updated, 0, 0, Delta(0, 0, 0), owner);
    }
  }

  lemma SameBalances(s: State, a: State, b: State, at: int)
    requires Locks(s, a, at) && b.now == a.now && b.balances == a.balances && b.refunds == a.refunds
    ensures Locks(s, b, at)
  {
  }

  // ---- the actions

  lemma BuyRexLocks(s: State, from: Name, amount: int, at: int)
    requires Invariant(s) && Near(s, at)
    ensures KeepsLocked(s, BuyRex(s, from, amount), at)
    ensures BuyRex(s, from, amount).Ok? ==>
      LockedIn(s.balances, from, at) + AddToPool(s.pool, s.initialized, amount).value.1
      <= LockedIn(BuyRex(s, from, amount).value.balances, from, at)
  {
    hide Books, TransferFromFund, Buy, RunRex, UpdateRexAccount, LockedIn, AddToPool;
    if BuyRex(s, from, amount).Ok? {
      FundStill(s, from, amount);
      PoolReceives(s, amount);
      var taken := TransferFromFund(s, from, amount).value;
      BoughtLocks(s, taken, from, amount, at);
    }
  }

  lemma FundStill(s: State, owner: Name, amount: int)
    ensures TransferFromFund(s, owner, amount).Ok? ==>
      var t := TransferFromFund(s, owner, amount).value; t == s.(funds := t.funds)
  {
  }

  lemma FundBackStill(s: State, owner: Name, amount: int)
    ensures TransferToFund(s, owner, amount).Ok? ==>
      var t := TransferToFund(s, owner, amount).value; t == s.(funds := t.funds)
  {
  }

  lemma PoolReceives(s: State, payment: int)
    requires Invariant(s) && 0 < payment
    ensures AddToPool(s.pool, s.initialized, payment).Ok? && 0 <= AddToPool(s.pool, s.initialized, payment).value.1
  {
    hide TokenBook, OwnerBook, StakeBook, TotalsBook, Balanced, AddToPool;
    AddToPoolBalanced(s.pool, s.initialized, payment);
  }

  /** A purchase from the state a of the same rows and pool, followed by runrex and update_rex_account. */
  lemma BoughtLocks(s: State, a: State, owner: Name, payment: int, at: int)
    requires Near(s, at) && a.now == s.now && a.balances == s.balances && a.pool == s.pool && a.initialized == s.initialized
    requires a.refunds == s.refunds
    requires Buy(a, owner, payment).Ok? && 0 <= AddToPool(s.pool, s.initialized, payment).value.1
    requires RunRex(Buy(a, owner, payment).value, 2).Ok?
    ensures var t := UpdateRexAccount(RunRex(Buy(a, owner, payment).value, 2).value, owner, 0).0;
      && Locks(s, t, at)
      && LockedIn(s.balances, owner, at) + AddToPool(s.pool, s.initialized, payment).value.1
         <= LockedIn(t.balances, owner, at)
  {
    hide Buy, RunRex, UpdateRexAccount, LockedIn, AddToPool;
    BuyLocks(a, owner, payment, at);
    var bought := Buy(a, owner, payment).value;
    RunRexLocks(bought, 2, at);
    var run := RunRex(bought, 2).value;
    UpdateRexAccountFrame(run, owner, 0);
    var t := UpdateRexAccount(run, owner, 0).0;
    forall n
      ensures LockedIn(s.balances, n, at) <= LockedIn(t.balances, n, at)
    {
      assert LockedIn(bought.balances, n, at) <= LockedIn(t.balances, n, at);
    }
  }

  lemma UnstakeToRexLocks(s: State, owner: Name, receiver: Name, fromNet: int, fromCpu: int, at: int)
    requires Invariant(s) && Near(s, at)
    ensures KeepsLocked(s, UnstakeToRex(s, owner, receiver, fromNet, fromCpu), at)
    ensures UnstakeToRex(s, owner, receiver, fromNet, fromCpu).Ok? ==>
      LockedIn(s.balances, owner, at) + AddToPool(s.pool, s.initialized, fromNet + fromCpu).value.1
      <= LockedIn(UnstakeToRex(s, owner, receiver, fromNet, fromCpu).value.balances, owner, at)
  {
    hide Books, Undelegate, UpdateResourceLimits, Transfer, Buy, RunRex, UpdateRexAccount, LockedIn, AddToPool;
    if UnstakeToRex(s, owner, receiver, fromNet, fromCpu).Ok? {
      PoolReceives(s, fromNet + fromCpu);
      UndelegateStill(s, owner, receiver, fromNet, fromCpu);
      var unstaked := Undelegate(s, owner, receiver, fromNet, fromCpu).value;
      ResourcesStill(unstaked, receiver, -fromNet, -fromCpu);
      var limited := UpdateResourceLimits(unstaked, receiver, -fromNet, -fromCpu).value;
      TransferStill(limited, STAKE_ACCOUNT, REX_ACCOUNT, fromNet + fromCpu);
      var paid := Transfer(limited, STAKE_ACCOUNT, REX_ACCOUNT, fromNet + fromCpu).value;
      BoughtLocks(s, paid, owner, fromNet + fromCpu, at);
    }
  }

  lemma UndelegateStill(s: State, owner: Name, receiver: Name, fromNet: int, fromCpu: int)
    ensures Undelegate(s, owner, receiver, fromNet, fromCpu).Ok? ==>
      var t := Undelegate(s, owner, receiver, fromNet, fromCpu).value; t == s.(delegations := t.delegations)
  {
    hide WithDelegation;
  }

  lemma ResourcesStill(s: State, receiver: Name, net: int, cpu: int)
    ensures UpdateResourceLimits(s, receiver, net, cpu).Ok? ==>
      var t := UpdateResourceLimits(s, receiver, net, cpu).value; t == s.(totals := t.totals)
  {
    hide ResourcesOf, WithResources;
    var row := ResourcesOf(s.totals, receiver);
    RowStill(s, receiver, Resources(row.net + net, row.cpu + cpu, row.ram));
  }

  lemma RowStill(s: State, receiver: Name, row: Resources)
    ensures var t := WithResources(s, receiver, row); t == s.(totals := t.totals)
  {
  }

  lemma TransferStill(s: State, from: Name, to: Name, amount: int)
    ensures Transfer(s, from, to, amount).Ok? ==>
      var t := Transfer(s, from, to, amount).value; t == s.(tokens := t.tokens)
  {
  }

  lemma SellRexLocks(s: State, from: Name, rex: int, at: int)
    requires Near(s, at)
    ensures KeepsLocked(s, SellRex(s, from, rex), at)
  {
    hide RunRex, SellMatured, WithMatured, Locks;
    RunRexLocks(s, 2, at);
    if RunRex(s, 2).Ok? && from in RunRex(s, 2).value.balances {
      var run := RunRex(s, 2).value;
      RunClock(s, 2);
      MaturedLocks(run, from, at);
      var a := WithMatured(run, from);
      SellMaturedLocks(a, from, rex, at);
      LocksFrom(run, a, SellMatured(a, from, rex), at);
      LocksFrom(s, run, SellMatured(a, from, rex), at);
    }
  }

  lemma RunClock(s: State, max: nat)
    requires RunRex(s, max).Ok?
    ensures RunRex(s, max).value.now == s.now
  {
    hide RunRex, LockedIn;
    RunRexLocks(s, max, 0);
  }

  lemma MaturedLocks(s: State, owner: Name, at: int)
    requires owner in s.balances && s.Seconds() <= at
    ensures Locks(s, WithMatured(s, owner), at) && owner in WithMatured(s, owner).balances
  {
    hide Mature, SellableAt;
    MatureSellable(s.balances[owner], s.Seconds(), at);
    RowLocks(s, owner, Mature(s.balances[owner], s.Seconds()), at);
  }

  lemma SellMaturedLocks(s: State, from: Name, rex: int, at: int)
    requires from in s.balances
    ensures KeepsLocked(s, SellMatured(s, from, rex), at)
  {
    hide RexPool.FillOrder, UpdateRexAccount, Enqueue, Locks, Debit;
    match RexPool.FillOrder(s.pool, rex)
    case Ok(Filled(proceeds, pool)) =>
      var debited := WithRow(s.(pool := pool), from, Debit(s.balances[from], rex));
      DebitLocks(s, from, rex, pool, at);
      UpdatedLocks(s, debited, from, proceeds, at);
    case Ok(Unfilled) =>
      var a := UpdateRexAccount(s, from, 0).0;
      NothingLocks(s, at);
      UpdatedLocks(s, s, from, 0, at);
      EnqueueLocks(s, a, from, rex, at);
    case _ =>
  }

  /** A sale takes as much from what has matured as from the whole. */
  lemma DebitLocks(s: State, from: Name, rex: int, pool: Pool, at: int)
    requires from in s.balances
    ensures Locks(s, WithRow(s.(pool := pool), from, Debit(s.balances[from], rex)), at)
  {
  }

  lemma UpdatedLocks(s: State, a: State, owner: Name, proceeds: int, at: int)
    requires Locks(s, a, at)
    ensures Locks(s, UpdateRexAccount(a, owner, proceeds).0, at)
    ensures UpdateRexAccount(a, owner, proceeds).0.balances == a.balances
  {
    hide UpdateRexAccount, LockedIn;
    UpdateRexAccountFrame(a, owner, proceeds);
    SameBalances(s, a, UpdateRexAccount(a, owner, proceeds).0, at);
  }

  lemma EnqueueLocks(s: State, a: State, from: Name, rex: int, at: int)
    requires Locks(s, a, at) && from in a.balances
    ensures KeepsLocked(s, Enqueue(a, from, rex), at)
  {
    hide Enqueue, LockedIn;
    EnqueueStill(a, from, rex);
    if Enqueue(a, from, rex).Ok? {
      SameBalances(s, a, Enqueue(a, from, rex).value, at);
    }
  }

  lemma EnqueueStill(s: State, from: Name, rex: int)
    requires from in s.balances
    ensures Enqueue(s, from, rex).Ok? ==> var t := Enqueue(s, from, rex).value; t == s.(orders := t.orders)
  {
  }

  lemma RentLocks(s: State, res: Resource, from: Name, receiver: Name, payment: int, fund: int, at: int)
    ensures KeepsLocked(s, Rent(s, res, from, receiver, payment, fund), at)
  {
    hide RunRex, LoansAvailable, TransferFromFund, OpenLoan, LockedIn;
    RunRexLocks(s, 2, at);
    if Rent(s, res, from, receiver, payment, fund).Ok? {
      var run := RunRex(s, 2).value;
      FundStill(run, from, payment + fund);
      OpenLoanStill(TransferFromFund(run, from, payment + fund).value, res, from, receiver, payment, fund);
    }
  }

  lemma OpenLoanStill(s: State, res: Resource, from: Name, receiver: Name, payment: int, fund: int)
    ensures Still(s, OpenLoan(s, res, from, receiver, payment, fund))
  {
    hide ExchangeState.BancorOutput, AddLoan, UpdateLimit;
    if OpenLoan(s, res, from, receiver, payment, fund).Ok? {
      var rented := ExchangeState.BancorOutput(s.pool.rent, s.pool.unlent, payment).value;
      var pool := AddLoan(s.pool, payment, rented, true);
      var loan := Loan(from, receiver, payment, fund, rented, s.now + LOAN_TERM);
      LimitsStill(WithLoans(s.(pool := pool), res, LoansOf(s, res)[pool.loanNum := loan]), receiver, res, rented);
    }
  }

  lemma UpdateRexLocks(s: State, owner: Name, at: int)
    requires Invariant(s) && Near(s, at)
    ensures KeepsLocked(s, UpdateRex(s, owner), at)
  {
    hide Books, RunRex, UpdateRexAccount, WithMatured, Locks, Sound;
    if UpdateRex(s, owner).Ok? {
      RunUpdateLocks(s, owner, at);
      var t := UpdateRexAccount(RunRex(s, 2).value, owner, 0).0;
      MaturedLocks(t, owner, at);
      LocksFrom(s, t, UpdateRex(s, owner), at);
    }
  }

  lemma ConsolidateLocks(s: State, owner: Name, at: int)
    requires Invariant(s) && Near(s, at)
    ensures KeepsLocked(s, ConsolidateRex(s, owner), at)
  {
    hide Books, RunRex, UpdateRexAccount, Locks, Sound, Clock, Consolidate, SellableAt;
    if ConsolidateRex(s, owner).Ok? {
      RunUpdateLocks(s, owner, at);
      var (t, pending) := UpdateRexAccount(RunRex(s, 2).value, owner, 0);
      ConsolidatedSellable(t.balances[owner], pending, s.Seconds(), at);
      RowLocks(t, owner, Consolidate(t.balances[owner], pending, s.Seconds()), at);
      LocksFrom(s, t, ConsolidateRex(s, owner), at);
    }
  }

  lemma ConsolidatedSellable(b: Balance, inOrder: int, sec: int, at: int)
    requires Sound(b, sec, 0) && Clock(sec) && 0 <= inOrder <= b.matured && sec <= at <= sec + 345600 && at < 4294967295
    ensures Consolidate(b, inOrder, sec).rex == b.rex
    ensures SellableAt(Consolidate(b, inOrder, sec), at) <= SellableAt(b, at)
  {
    hide Sound, Clock, Consolidate, SellableAt;
    ConsolidateSound(b, inOrder, sec);
    ConsolidateMatures(b, inOrder, sec);
    var r := Consolidate(b, inOrder, sec);
    var total := b.rex - inOrder - Savings(b);
    var m :| FiledFor(Balance(0, inOrder, []), r, total, sec, m);
    OrderAlone(inOrder, at);
    DueWithin(b, sec, 0, at);
  }

  lemma OrderAlone(inOrder: int, at: int)
    ensures SellableAt(Balance(0, inOrder, []), at) == inOrder
  {
  }

  lemma MoveToSavingsLocks(s: State, owner: Name, rex: int, at: int)
    requires Invariant(s) && Near(s, at)
    ensures KeepsLocked(s, MoveRexToSavings(s, owner, rex), at)
  {
    hide Books, RunRex, UpdateRexAccount, Locks, Sound, Clock, MoveToSavings, SellableAt;
    if MoveRexToSavings(s, owner, rex).Ok? {
      RunUpdateLocks(s, owner, at);
      var (t, pending) := UpdateRexAccount(RunRex(s, 2).value, owner, 0);
      var b := t.balances[owner];
      MoveToSavingsSound(b, rex, pending, s.Seconds());
      MoveToSavingsMatures(b, rex, pending, s.Seconds(), at);
      RowLocks(t, owner, MoveToSavings(b, rex, pending, s.Seconds()).value, at);
      LocksFrom(s, t, MoveRexToSavings(s, owner, rex), at);
    }
  }

  lemma MoveFromSavingsLocks(s: State, owner: Name, rex: int, at: int)
    requires Invariant(s) && Near(s, at)
    ensures KeepsLocked(s, MoveRexFromSavings(s, owner, rex), at)
  {
    hide Books, RunRex, UpdateRexAccount, Locks, Sound, Clock, MoveFromSavings, SellableAt;
    if MoveRexFromSavings(s, owner, rex).Ok? {
      RunUpdateLocks(s, owner, at);
      var run := RunRex(s, 2).value;
      var b := run.balances[owner];
      MovedBackSellable(b, rex, s.Seconds(), at);
      var row := MoveFromSavings(b, rex, s.Seconds()).value;
      RowLocks(run, owner, row, at);
      UpdateRexAccountFrame(WithRow(run, owner, row), owner, 0);
      LocksFrom(s, run, Ok(WithRow(run, owner, row)), at);
      SameBalances(s, WithRow(run, owner, row), MoveRexFromSavings(s, owner, rex).value, at);
    }
  }

  lemma MovedBackSellable(b: Balance, rex: int, sec: int, at: int)
    requires Sound(b, sec, 0) && Clock(sec) && 0 < rex && MoveFromSavings(b, rex, sec).Ok?
    requires sec <= at <= sec + 345600 && at < 4294967295
    ensures MoveFromSavings(b, rex, sec).value.rex == b.rex
    ensures SellableAt(MoveFromSavings(b, rex, sec).value, at) == SellableAt(b, at)
  {
    hide Sound, Clock, MoveFromSavings, SellableAt;
    MoveFromSavingsSound(b, rex, sec);
    MoveFromSavingsMatures(b, rex, sec);
    var m :| FiledFor(b, MoveFromSavings(b, rex, sec).value, rex, sec, m);
  }

  lemma CloseRexLocks(s: State, owner: Name, at: int)
    requires Invariant(s) && Near(s, at)
    ensures KeepsLocked(s, CloseRex(s, owner), at)
  {
    hide Books, RunRex, CloseRows, Locks;
    if CloseRex(s, owner).Ok? {
      if s.initialized {
        RunUpdateLocks(s, owner, at);
        var run := RunRex(s, 2).value;
        CloseRowsLocks(run, owner, at);
        LocksFrom(s, run, CloseRex(s, owner), at);
      } else {
        CloseRowsLocks(s, owner, at);
      }
    }
  }

  lemma FundClosed(s: State, owner: Name)
    ensures var t := WithoutFund(s, owner); t == s.(funds := t.funds)
  {
    hide NoLoansOf;
  }

  /** Only a row without any REX is erased. */
  lemma ClosedRow(s: State, owner: Name)
    requires CloseRows(s, owner).Ok?
    ensures owner in s.balances ==> s.balances[owner].rex == 0
    ensures var t := CloseRows(s, owner).value;
      && t.now == s.now && t.refunds == s.refunds
      && forall n :: (n in t.balances <==> n in s.balances && n != owner) && (n in t.balances ==> t.balances[n] == s.balances[n])
  {
    hide UpdateRexAccount, WithoutFund;
    UpdateRexAccountFrame(s, owner, 0);
    FundClosed(UpdateRexAccount(s, owner, 0).0, owner);
  }

  lemma CloseRowsLocks(s: State, owner: Name, at: int)
    requires Invariant(s)
    ensures KeepsLocked(s, CloseRows(s, owner), at)
  {
    hide Books, Sound, Clock, CloseRows, SellableAt, Balanced;
    if CloseRows(s, owner).Ok? {
      ClosedRow(s, owner);
      if owner in s.balances {
        RowFacts(s, owner, 0, 0, Delta(0, 0, 0));
        DueWithin(s.balances[owner], s.Seconds(), 0, at);
      }
    }
  }

  /** A change of bandwidth touches no balance row. */
  lemma ChangeBandwidthStill(s: State, source: Name, receiver: Name, net: int, cpu: int, transfer: bool)
    ensures StillRex(s, Bandwidth.ChangeBandwidth(s, source, receiver, net, cpu, transfer))
  {
    hide Bandwidth.ChangeDelegation, Bandwidth.ChangeTotals, Bandwidth.ChangeRefund, Transfer, Bandwidth.Abs;
    var from := if transfer then receiver else source;
    DelegationStill(s, from, receiver, net, cpu);
    if Bandwidth.ChangeDelegation(s, from, receiver, net, cpu).Ok? {
      var a := Bandwidth.ChangeDelegation(s, from, receiver, net, cpu).value;
      TotalsStill(a, receiver, net, cpu);
      if Bandwidth.ChangeTotals(a, receiver, net, cpu).Ok? {
        var b := Bandwidth.ChangeTotals(a, receiver, net, cpu).value;
        RefundStill(b, from, net, cpu);
        TransferStill(b, source, STAKE_ACCOUNT, net + cpu);
        if Bandwidth.ChangeRefund(b, from, net, cpu).Ok? {
          var (c, owed) := Bandwidth.ChangeRefund(b, from, net, cpu).value;
          TransferStill(c, source, STAKE_ACCOUNT, owed);
        }
      }
    }
  }

  lemma DelegationStill(s: State, from: Name, receiver: Name, net: int, cpu: int)
    ensures StillRex(s, Bandwidth.ChangeDelegation(s, from, receiver, net, cpu))
  {
    hide WithDelegation, DelegationOf;
  }

  lemma TotalsStill(s: State, receiver: Name, net: int, cpu: int)
    ensures StillRex(s, Bandwidth.ChangeTotals(s, receiver, net, cpu))
  {
    hide ResourcesOf;
  }

  lemma RefundStill(s: State, from: Name, net: int, cpu: int)
    ensures Bandwidth.ChangeRefund(s, from, net, cpu).Ok? ==>
      var t := Bandwidth.ChangeRefund(s, from, net, cpu).value.0; t == s.(refunds := t.refunds)
  {
    hide Bandwidth.Settle;
  }

  lemma DepositStill(s: State, owner: Name, amount: int)
    ensures Still(s, Deposit(s, owner, amount))
  {
    hide Transfer, TransferToFund;
    TransferStill(s, owner, REX_ACCOUNT, amount);
    if Deposit(s, owner, amount).Ok? {
      FundBackStill(Transfer(s, owner, REX_ACCOUNT, amount).value, owner, amount);
    }
  }

  lemma WithdrawStill(s: State, owner: Name, amount: int)
    ensures Still(s, Withdraw(s, owner, amount))
  {
    hide Transfer, UpdateRexAccount, TransferFromFund;
    if Withdraw(s, owner, amount).Ok? {
      UpdateRexAccountFrame(s, owner, 0);
      var a := UpdateRexAccount(s, owner, 0).0;
      FundStill(a, owner, amount);
      TransferStill(TransferFromFund(a, owner, amount).value, REX_ACCOUNT, owner, amount);
    }
  }

  lemma FundLoanStill(s: State, res: Resource, from: Name, k: int, payment: int)
    ensures Still(s, FundLoan(s, res, from, k, payment))
  {
    hide TransferFromFund;
    FundStill(s, from, payment);
  }

  lemma DefundLoanStill(s: State, res: Resource, from: Name, k: int, amount: int)
    ensures Still(s, DefundLoan(s, res, from, k, amount))
  {
    hide TransferToFund;
    if k in LoansOf(s, res) {
      var loan := LoansOf(s, res)[k];
      FundBackStill(WithLoans(s, res, LoansOf(s, res)[k := loan.(balance := loan.balance - amount)]), from, amount);
    }
  }

  lemma FeeStill(s: State, from: Name, amount: int, core: bool)
    ensures Still(s, DistributeViaRex(s, from, amount, core))
  {
    hide Transfer;
    TransferStill(s.(pool := AddFee(s.pool, amount)), from, REX_ACCOUNT, amount);
  }

  lemma ClaimStill(s: State, owner: Name)
    ensures StillRex(s, Bandwidth.ClaimRefund(s, owner))
  {
    hide Transfer;
    if owner in s.refunds {
      TransferStill(s, STAKE_ACCOUNT, owner, s.refunds[owner].net + s.refunds[owner].cpu);
    }
  }

  lemma GiveStill(s: State, from: Name, to: Name, amount: int)
    ensures Still(s, SystemActions.Give(s, from, to, amount))
  {
    hide Transfer;
    TransferStill(s, from, to, amount);
  }

  lemma DelegateStill(s: State, from: Name, receiver: Name, net: int, cpu: int, transfer: bool)
    ensures StillRex(s, Bandwidth.DelegateBandwidth(s, from, receiver, net, cpu, transfer))
    ensures StillRex(s, Bandwidth.UndelegateBandwidth(s, from, receiver, net, cpu))
  {
    hide Bandwidth.ChangeBandwidth;
    ChangeBandwidthStill(s, from, receiver, net, cpu, transfer);
    ChangeBandwidthStill(s, from, receiver, -net, -cpu, false);
  }

  // ---- runs

  /** The actions on delegations and refunds. */
  predicate Staking(a: SystemActions.Action) {
    a.DelegateBandwidth? || a.UndelegateBandwidth? || a.ClaimRefund?
  }

  lemma StakingStill(s: State, a: SystemActions.Action)
    requires Staking(a)
    ensures StillRex(s, SystemActions.Step(s, a))
  {
    hide Bandwidth.DelegateBandwidth, Bandwidth.UndelegateBandwidth, Bandwidth.ClaimRefund, StillRex;
    match a
    case DelegateBandwidth(from, receiver, net, cpu, transfer) => DelegateStill(s, from, receiver, net, cpu, transfer);
    case UndelegateBandwidth(from, receiver, net, cpu) => DelegateStill(s, from, receiver, net, cpu, false);
    case ClaimRefund(owner) => ClaimStill(s, owner);
    case _ =>
  }

  /** No action on REX makes any sellable by a time at most four days ahead that was not, or changes a refund. */
  lemma StepLocks(s: State, a: SystemActions.Action, at: int)
    requires Invariant(s) && Near(s, at) && !Staking(a) && !a.Wait?
    ensures KeepsLocked(s, SystemActions.Step(s, a), at)
  {
    hide Invariant, Still, KeepsLocked, Near, Deposit, Withdraw, BuyRex, UnstakeToRex, SellRex, CancelRexOrder, Rent,
      FundLoan, DefundLoan, UpdateRex, SetRex, RunRex, ConsolidateRex, MoveRexToSavings, MoveRexFromSavings, CloseRex,
      DistributeViaRex, ChannelNamebid, Bandwidth.DelegateBandwidth, Bandwidth.UndelegateBandwidth, Bandwidth.ClaimRefund,
      SystemActions.OpenAccount, SystemActions.ChangeRam, SystemActions.Give;
    match a
    case Deposit(owner, amount) => DepositStill(s, owner, amount); StillLocks(s, Deposit(s, owner, amount), at);
    case Withdraw(owner, amount) => WithdrawStill(s, owner, amount); StillLocks(s, Withdraw(s, owner, amount), at);
    case BuyRex(from, amount) => BuyRexLocks(s, from, amount, at);
    case UnstakeToRex(owner, receiver, fromNet, fromCpu) => UnstakeToRexLocks(s, owner, receiver, fromNet, fromCpu, at);
    case SellRex(from, rex) => SellRexLocks(s, from, rex, at);
    case Rent(res, from, receiver, payment, fund) => RentLocks(s, res, from, receiver, payment, fund, at);
    case FundLoan(res, from, k, payment) =>
      FundLoanStill(s, res, from, k, payment);
      StillLocks(s, FundLoan(s, res, from, k, payment), at);
    case DefundLoan(res, from, k, amount) =>
      DefundLoanStill(s, res, from, k, amount);
      StillLocks(s, DefundLoan(s, res, from, k, amount), at);
    case UpdateRex(owner) => UpdateRexLocks(s, owner, at);
    case RexExec(max) => RunRexLocks(s, max, at);
    case Consolidate(owner) => ConsolidateLocks(s, owner, at);
    case MoveToSavings(owner, rex) => MoveToSavingsLocks(s, owner, rex, at);
    case MoveFromSavings(owner, rex) => MoveFromSavingsLocks(s, owner, rex, at);
    case CloseRex(owner) => CloseRexLocks(s, owner, at);
    case DistributeViaRex(from, amount, core) =>
      FeeStill(s, from, amount, core);
      StillLocks(s, DistributeViaRex(s, from, amount, core), at);
    case PlainTransfer(from, to, amount) =>
      GiveStill(s, from, to, amount);
      StillLocks(s, SystemActions.Give(s, from, to, amount), at);
    case SetRex(balance) => SetRexStill(s, balance); StillLocks(s, SetRex(s, balance), at);
    case CloseNameAuction(highestBid) => ChannelNamebidStill(s, highestBid); StillLocks(s, Ok(ChannelNamebid(s, highestBid)), at);
    case CancelRexOrder(owner) => CancelStill(s, owner); StillLocks(s, CancelRexOrder(s, owner), at);
    case NewAccount(owner) => AccountStill(s, owner, 0); StillLocks(s, SystemActions.OpenAccount(s, owner), at);
    case SetRam(owner, ram) => AccountStill(s, owner, ram); StillLocks(s, SystemActions.ChangeRam(s, owner, ram), at);
  }

  lemma SetRexStill(s: State, balance: int)
    ensures Still(s, SetRex(s, balance))
  {
  }

  lemma ChannelNamebidStill(s: State, highestBid: int)
    ensures Still(s, Ok(ChannelNamebid(s, highestBid)))
  {
    hide RexAvailable;
  }

  lemma CancelStill(s: State, owner: Name)
    ensures Still(s, CancelRexOrder(s, owner))
  {
  }

  lemma AccountStill(s: State, owner: Name, ram: int)
    ensures Still(s, SystemActions.OpenAccount(s, owner)) && Still(s, SystemActions.ChangeRam(s, owner, ram))
  {
    hide ResourcesOf;
  }

  /** Whatever the action does and however much time it takes, the clock does not go back and nothing comes free early. */
  lemma AfterLocks(s: State, a: SystemActions.Action, at: int)
    requires Invariant(s) && Near(s, at)
    ensures var t := SystemActions.After(s, a);
      s.now <= t.now && forall n :: LockedIn(s.balances, n, at) <= LockedIn(t.balances, n, at)
  {
    hide Invariant, LockedIn, SystemActions.Step;
    if a.Wait? {
      Waited(s, a);
    } else if Staking(a) {
      StakingStill(s, a);
    } else {
      StepLocks(s, a, at);
    }
  }

  lemma Waited(s: State, a: SystemActions.Action)
    requires a.Wait?
    ensures SystemActions.Step(s, a) == Ok(s.(now := s.now + a.microseconds))
  {
  }

  lemma {:induction false} RunForward(s: State, actions: seq<SystemActions.Action>)
    requires Invariant(s) && SystemActions.AllAdmissible(s, actions)
    ensures s.now <= SystemActions.Run(s, actions).now
    decreases |actions|
  {
    hide Invariant, SystemActions.Step, SystemActions.Admissible;
    if actions == [] {
    } else {
      SystemSafety.StepSafe(s, actions[0]);
      SystemSafety.AfterInvariant(s, actions[0]);
      StepForward(s, actions[0]);
      RunForward(SystemActions.After(s, actions[0]), actions[1..]);
    }
  }

  lemma StepForward(s: State, a: SystemActions.Action)
    requires Safe(s, SystemActions.Step(s, a))
    ensures s.now <= SystemActions.After(s, a).now
  {
    hide Invariant, SystemActions.Step, PriceHolds;
  }

  lemma SecondsForward(a: State, b: State)
    requires a.now <= b.now
    ensures a.Seconds() <= b.Seconds()
  {
  }

  /** No run that ends by a time at most four days after its start makes REX sellable by then that was not. */
  lemma {:induction false} RunLocks(s: State, actions: seq<SystemActions.Action>, n: Name, at: int)
    requires Invariant(s) && SystemActions.AllAdmissible(s, actions) && Near(s, at)
    requires SystemActions.Run(s, actions).Seconds() <= at
    ensures LockedIn(s.balances, n, at) <= LockedIn(SystemActions.Run(s, actions).balances, n, at)
    decreases |actions|
  {
    hide Invariant, SystemActions.Step, SystemActions.Admissible, LockedIn;
    if actions == [] {
    } else {
      var t := SystemActions.After(s, actions[0]);
      SystemSafety.StepSafe(s, actions[0]);
      SystemSafety.AfterInvariant(s, actions[0]);
      AfterLocks(s, actions[0], at);
      RunForward(t, actions[1..]);
      SecondsForward(s, t);
      SecondsForward(t, SystemActions.Run(t, actions[1..]));
      RunLocks(t, actions[1..], n, at);
    }
  }

  /**
   * REX bought now is still held, and not yet sellable, in every state that a run of actions reaches within four days:
   * a sale needs matured REX.
   */
  lemma BoughtRexStays(s: State, from: Name, amount: int, actions: seq<SystemActions.Action>)
    requires Invariant(s) && BuyRex(s, from, amount).Ok?
    requires SystemActions.AllAdmissible(BuyRex(s, from, amount).value, actions)
    requires SystemActions.Run(BuyRex(s, from, amount).value, actions).Seconds() <= s.Seconds() + 345600
    ensures var received := AddToPool(s.pool, s.initialized, amount).value.1;
      var u := SystemActions.Run(BuyRex(s, from, amount).value, actions);
      0 < received ==>
        && from in u.balances && received + u.balances[from].matured <= u.balances[from].rex
        && received + SellableAt(u.balances[from], u.Seconds()) <= u.balances[from].rex
  {
    hide Invariant, BuyRex, SystemActions.Run, SystemActions.AllAdmissible, AddToPool, SellableAt, Clock, Sound, Balanced;
    var t := BuyRex(s, from, amount).value;
    var u := SystemActions.Run(t, actions);
    var at := u.Seconds();
    BuyRexSafe(s, from, amount);
    SafeState(s, t);
    RunForward(t, actions);
    SystemSafety.RunKeepsInvariant(t, actions);
    SecondsForward(s, t);
    SecondsForward(t, u);
    NearEnd(s, at);
    BuyRexLocks(s, from, amount, at);
    RunLocks(t, actions, from, at);
    LockedNonNegative(s, from, at);
    if from in u.balances {
      InvariantRow(u, from);
      DueWithin(u.balances[from], u.Seconds(), 0, at);
    }
  }

  lemma SafeState(s: State, t: State)
    requires Safe(s, Ok(t))
    ensures Invariant(t) && s.now <= t.now
  {
    hide Invariant, PriceHolds;
  }

  lemma NearEnd(s: State, at: int)
    requires Invariant(s) && s.Seconds() <= at <= s.Seconds() + 345600
    ensures Near(s, at)
  {
    hide PoolBook, TokenBook, StakeBook, TotalsBook, Sound;
  }

  lemma InvariantRow(s: State, n: Name)
    requires Invariant(s) && n in s.balances
    ensures Sound(s.balances[n], s.Seconds(), 0)
  {
    hide Books, Clock, Sound, Balanced;
    RowFacts(s, n, 0, 0, Delta(0, 0, 0));
  }

  lemma LockedNonNegative(s: State, n: Name, at: int)
    requires Invariant(s)
    ensures 0 <= LockedIn(s.balances, n, at)
  {
    hide Invariant, Sound, SellableAt;
    if n in s.balances {
      InvariantRow(s, n);
      DueWithin(s.balances[n], s.Seconds(), 0, at);
    }
  }
}
