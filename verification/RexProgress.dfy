/** Every action that touches REX moves expired loans on. */
module RexProgress {
  import opened Outcomes
  import opened RexMaturities
  import opened RexPool
  import opened SystemTables
  import opened RexLedger
  import opened SystemBooks
  import opened RexInvariant
  import opened RexActionsKept
  import opened RexEffects
  import RexOrders
  import RexLocked
  import SystemActions

  /** No loan is new in t and none has gone back in time. */
  ghost predicate Onward(s: State, t: State) {
    t.now == s.now && forall res, k ::
      k in LoansOf(t, res) ==> k in LoansOf(s, res) && LoansOf(s, res)[k].expiration <= LoansOf(t, res)[k].expiration
  }

  /** Loan k has been closed or renewed since s. */
  predicate Handled(s: State, t: State, res: Resource, k: int) {
    k in LoansOf(s, res) && k in LoansOf(t, res) ==> LoansOf(s, res)[k].expiration < LoansOf(t, res)[k].expiration
  }

  /** Loan k has expired, and before all others. */
  predicate DueFirst(s: State, res: Resource, k: int) {
    k in LoansOf(s, res) && LoansOf(s, res)[k].expiration <= s.now && ExpiresFirst(LoansOf(s, res), k)
  }

  /** The expired loan that was first, for each resource, has been closed or renewed. */
  ghost predicate Advanced(s: State, t: State) {
    forall res, k :: DueFirst(s, res, k) ==> Handled(s, t, res, k)
  }

  lemma OnwardFrom(s: State, a: State, t: State)
    requires Onward(s, a) && Onward(a, t)
    ensures Onward(s, t)
  {
  }

  lemma SameOnward(s: State, t: State)
    requires t.cpuLoans == s.cpuLoans && t.netLoans == s.netLoans && t.now == s.now
    ensures Onward(s, t)
  {
  }

  /** A loan that has been handled stays so. */
  lemma StillHandled(s: State, a: State, t: State, res: Resource, k: int)
    requires Handled(s, a, res, k) && Onward(a, t)
    ensures Handled(s, t, res, k)
  {
  }

  lemma StillAdvanced(s: State, a: State, t: State)
    requires Advanced(s, a) && Onward(a, t)
    ensures Advanced(s, t)
  {
    hide Onward, DueFirst, Handled;
    forall res, k | DueFirst(s, res, k)
      ensures Handled(s, t, res, k)
    {
      StillHandled(s, a, t, res, k);
    }
  }

  /** What is done before runrex touches no loan. */
  lemma AdvancedFrom(s: State, a: State, t: State)
    requires Advanced(a, t) && a.cpuLoans == s.cpuLoans && a.netLoans == s.netLoans && a.now == s.now
    ensures Advanced(s, t)
  {
    hide ExpiresFirst;
    forall res, k | DueFirst(s, res, k)
      ensures Handled(s, t, res, k)
    {
      assert DueFirst(a, res, k);
    }
  }

  lemma ProcessedOnward(s: State, res: Resource, k: int)
    requires Invariant(s) && k in LoansOf(s, res)
    ensures ProcessExpired(s, res, k).Ok?
    ensures var t := ProcessExpired(s, res, k).value; Onward(s, t) && Handled(s, t, res, k) && Invariant(t)
  {
    hide Books, Kept, ProcessExpired, RentTaken, Rents, WithStakeBack, EntitlesTo, FundChange, NoOpenOrders, LoansOf;
    var taken, rented := ExpiredPrices(s, res, k);
    ProcessExpiredExactly(s, res, k, taken, rented);
    ProcessExpiredKeeps(s, res, k);
    var t := ProcessExpired(s, res, k).value;
    KeptHasBooks(s, t, 0, 0, Delta(0, 0, 0));
    forall r, j | j in LoansOf(t, r)
      ensures j in LoansOf(s, r) && LoansOf(s, r)[j].expiration <= LoansOf(t, r)[j].expiration
    {
      assert (r == res && j == k) || j in LoansOf(s, r);
    }
  }

  lemma {:induction false} LoansOnward(s: State, res: Resource, max: nat)
    requires Invariant(s)
    ensures RunLoans(s, res, max).Ok? && Onward(s, RunLoans(s, res, max).value)
    ensures Invariant(RunLoans(s, res, max).value)
    decreases max
  {
    hide Invariant, ProcessExpired, Onward, Least, LoansOf;
    SameOnward(s, s);
    var index := ByExpiry(LoansOf(s, res));
    if max == 0 || index == {} || Least(index).0 > s.now {
    } else {
      var k := Least(index).1;
      ProcessedOnward(s, res, k);
      var next := ProcessExpired(s, res, k).value;
      LoansOnward(next, res, max - 1);
      OnwardFrom(s, next, RunLoans(next, res, max - 1).value);
    }
  }

  /** The first expired loan is handled. */
  lemma FirstHandled(s: State, res: Resource, max: nat, k: int)
    requires Invariant(s) && max > 0 && DueFirst(s, res, k)
    ensures RunLoans(s, res, max).Ok? && Handled(s, RunLoans(s, res, max).value, res, k)
  {
    hide Invariant, ProcessExpired, Onward, RunLoans, ExpiresFirst, LoansOf, Handled;
    ProcessedOnward(s, res, k);
    var next := ProcessExpired(s, res, k).value;
    EarliestFirst(s, res, max, k);
    LoansOnward(next, res, max - 1);
    StillHandled(s, next, RunLoans(next, res, max - 1).value, res, k);
  }

  lemma {:induction false} OrdersOnward(s: State, after: (int, int), max: nat)
    requires RunOrders(s, after, max).Ok?
    ensures Onward(s, RunOrders(s, after, max).value)
    decreases max
  {
    hide FillQueued, Onward;
    SameOnward(s, s);
    if max == 0 || OpenAfter(s.orders, after) == {} {
    } else {
      var first := Least(OpenAfter(s.orders, after));
      var next := FillQueued(s, first.1).value;
      FilledOnward(s, first.1);
      OrdersOnward(next, first, max - 1);
      OnwardFrom(s, next, RunOrders(next, first, max - 1).value);
    }
  }

  lemma FilledOnward(s: State, owner: Name)
    requires owner in s.orders && FillQueued(s, owner).Ok?
    ensures Onward(s, FillQueued(s, owner).value)
  {
    hide RexPool.FillOrder, Onward, Debit;
    SameOnward(s, FillQueued(s, owner).value);
  }

  lemma BidsOnward(s: State)
    requires ChannelNamebids(s).Ok?
    ensures var t := ChannelNamebids(s).value; t == s.(pool := t.pool, tokens := t.tokens)
  {
    hide Transfer;
    RexLocked.TransferStill(s.(pool := AddFee(s.pool, s.pool.namebid)), NAMES_ACCOUNT, REX_ACCOUNT, s.pool.namebid);
  }

  /** runrex closes or renews the expired loan that is first, for CPU and for NET. */
  lemma RunRexAdvances(s: State, max: nat)
    requires Invariant(s) && RunRex(s, max).Ok? && max > 0
    ensures Advanced(s, RunRex(s, max).value)
  {
    hide Books, Kept, ChannelNamebids, RunLoans, RunOrders, Onward, Handled, DueFirst;
    ChannelNamebidsKeeps(s);
    var a := ChannelNamebids(s).value;
    BidsOnward(s);
    KeptHasBooks(s, a, 0, 0, Delta(0, 0, 0));
    LoansOnward(a, Cpu, max);
    var b := RunLoans(a, Cpu, max).value;
    LoansOnward(b, Net, max);
    var c := RunLoans(b, Net, max).value;
    OrdersOnward(c, (-1, -1), max);
    var t := RunRex(s, max).value;
    OnwardFrom(b, c, t);
    forall res, k | DueFirst(a, res, k)
      ensures Handled(a, t, res, k)
    {
      if res.Cpu? {
        FirstHandled(a, Cpu, max, k);
        StillHandled(a, b, t, Cpu, k);
      } else {
        NetHandled(a, b, c, max, k);
        StillHandled(a, c, t, Net, k);
      }
    }
    AdvancedFrom(s, a, t);
  }

  /** The loans for CPU come first and leave those for NET alone. */
  lemma NetHandled(a: State, b: State, c: State, max: nat, k: int)
    requires Invariant(a) && max > 0 && RunLoans(a, Cpu, max) == Ok(b) && RunLoans(b, Net, max) == Ok(c)
    requires DueFirst(a, Net, k)
    ensures Handled(a, c, Net, k)
  {
    hide Invariant, RunLoans;
    LoansOnward(a, Cpu, max);
    forall j | j in LoansOf(a, Net)
      ensures j in LoansOf(b, Net) && LoansOf(b, Net)[j] == LoansOf(a, Net)[j]
    {
      UnexpiredStays(a, Cpu, max, Net, j);
    }
    assert DueFirst(b, Net, k);
    FirstHandled(b, Net, max, k);
  }

  // ---- the actions

  /** runrex from the state a of the same loans, followed by what touches none of those there. */
  lemma RunThenSame(s: State, a: State, t: State)
    requires Invariant(a) && a.cpuLoans == s.cpuLoans && a.netLoans == s.netLoans && a.now == s.now && RunRex(a, 2).Ok?
    requires var run := RunRex(a, 2).value; t.cpuLoans == run.cpuLoans && t.netLoans == run.netLoans && t.now == run.now
    ensures Advanced(s, t)
  {
    hide Invariant, RunRex, Onward, Advanced;
    var run := RunRex(a, 2).value;
    RunRexAdvances(a, 2);
    SameOnward(run, t);
    StillAdvanced(a, run, t);
    AdvancedFrom(s, a, t);
  }

  lemma BuyRexAdvances(s: State, from: Name, amount: int)
    requires Invariant(s) && BuyRex(s, from, amount).Ok?
    ensures Advanced(s, BuyRex(s, from, amount).value)
  {
    hide Books, Kept, TransferFromFund, Buy, RunRex, UpdateRexAccount, Advanced, PriceHolds;
    RexLocked.FundStill(s, from, amount);
    FromFundKeeps(s, from, amount, 0, 0, Delta(0, 0, 0));
    BoughtAdvances(s, TransferFromFund(s, from, amount).value, from, amount);
  }

  lemma BoughtAdvances(s: State, a: State, owner: Name, payment: int)
    requires Kept(s, a, payment, 0, Delta(0, 0, 0)) && 0 < payment && a.cpuLoans == s.cpuLoans && a.netLoans == s.netLoans
    requires Buy(a, owner, payment).Ok? && RunRex(Buy(a, owner, payment).value, 2).Ok?
    ensures Advanced(s, UpdateRexAccount(RunRex(Buy(a, owner, payment).value, 2).value, owner, 0).0)
  {
    hide Books, Kept, Buy, RunRex, UpdateRexAccount, Advanced, PriceHolds, OtherRows, AddToPool;
    KeptHasBooks(s, a, payment, 0, Delta(0, 0, 0));
    BuyBooks(a, owner, payment, 0, Delta(0, 0, 0));
    RexOrders.BuyExactly(a, owner, payment);
    var b := Buy(a, owner, payment).value;
    var run := RunRex(b, 2).value;
    UpdateRexAccountFrame(run, owner, 0);
    RunThenSame(s, b, UpdateRexAccount(run, owner, 0).0);
  }

  lemma UnstakeToRexAdvances(s: State, owner: Name, receiver: Name, fromNet: int, fromCpu: int)
    requires Invariant(s) && UnstakeToRex(s, owner, receiver, fromNet, fromCpu).Ok?
    ensures Advanced(s, UnstakeToRex(s, owner, receiver, fromNet, fromCpu).value)
  {
    hide Books, Kept, Undelegate, UpdateResourceLimits, Transfer, Buy, RunRex, UpdateRexAccount, Advanced, PriceHolds, Balanced;
    var payment, none := fromNet + fromCpu, Delta(0, 0, 0);
    var d := Delta(receiver, -fromNet, -fromCpu);
    var a := Undelegate(s, owner, receiver, fromNet, fromCpu).value;
    RexLocked.UndelegateStill(s, owner, receiver, fromNet, fromCpu);
    UndelegateKeeps(s, owner, receiver, fromNet, fromCpu);
    KeptHasBooks(s, a, 0, payment, d);
    UpdateLimitsKeeps(a, 0, payment, d);
    var b := UpdateResourceLimits(a, receiver, -fromNet, -fromCpu).value;
    RexLocked.ResourcesStill(a, receiver, -fromNet, -fromCpu);
    Then(s, a, 0, payment, d, Ok(b), 0, payment, none);
    KeptHasBooks(s, b, 0, payment, none);
    UnstakedPaid(b, payment);
    Then(s, b, 0, payment, none, Transfer(b, STAKE_ACCOUNT, REX_ACCOUNT, payment), payment, 0, none);
    RexLocked.TransferStill(b, STAKE_ACCOUNT, REX_ACCOUNT, payment);
    BoughtAdvances(s, Transfer(b, STAKE_ACCOUNT, REX_ACCOUNT, payment).value, owner, payment);
  }

  lemma SellMaturedFrame(s: State, from: Name, rex: int)
    requires from in s.balances && SellMatured(s, from, rex).Ok?
    ensures var t := SellMatured(s, from, rex).value;
      t == s.(pool := t.pool, balances := t.balances, funds := t.funds, orders := t.orders)
  {
    hide RexPool.FillOrder, UpdateRexAccount, Enqueue, Debit;
    match RexPool.FillOrder(s.pool, rex)
    case Ok(Filled(proceeds, pool)) =>
      var debited := WithRow(s.(pool := pool), from, Debit(s.balances[from], rex));
      UpdateRexAccountFrame(debited, from, proceeds);
      assert SellMatured(s, from, rex).value == UpdateRexAccount(debited, from, proceeds).0;
    case Ok(Unfilled) =>
      WaitingFrame(s, from, rex);
    case _ =>
  }

  lemma WaitingFrame(s: State, from: Name, rex: int)
    requires from in s.balances && Enqueue(UpdateRexAccount(s, from, 0).0, from, rex).Ok?
    ensures var t := Enqueue(UpdateRexAccount(s, from, 0).0, from, rex).value; t == s.(funds := t.funds, orders := t.orders)
  {
    hide UpdateRexAccount, Enqueue;
    UpdateRexAccountFrame(s, from, 0);
    RexLocked.EnqueueStill(UpdateRexAccount(s, from, 0).0, from, rex);
  }

  lemma SellRexAdvances(s: State, from: Name, rex: int)
    requires Invariant(s) && SellRex(s, from, rex).Ok?
    ensures Advanced(s, SellRex(s, from, rex).value)
  {
    hide Invariant, RunRex, SellMatured, Mature, Advanced;
    SellMaturedFrame(WithMatured(RunRex(s, 2).value, from), from, rex);
    RunThenSame(s, s, SellRex(s, from, rex).value);
  }

  lemma RentAdvances(s: State, res: Resource, from: Name, receiver: Name, payment: int, fund: int)
    requires Invariant(s) && Rent(s, res, from, receiver, payment, fund).Ok?
    ensures Advanced(s, Rent(s, res, from, receiver, payment, fund).value)
  {
    hide Books, Kept, RunRex, Rent, Rents, LoansAvailable, FundChange, EntitlesTo, Handled, Balanced, Onward, DueFirst;
    var rented := RentedNow(s, res, from, receiver, payment, fund);
    var run, t := RunRex(s, 2).value, Rent(s, res, from, receiver, payment, fund).value;
    RentExactly(s, res, from, receiver, payment, fund, rented);
    RunRexAdvances(s, 2);
    RunRexKeeps(s, 2);
    KeptHasBooks(s, run, 0, 0, Delta(0, 0, 0));
    forall r, k | DueFirst(s, r, k)
      ensures Handled(s, t, r, k)
    {
      OpenedHandles(s, run, t, res, run.pool.loanNum + 1, Loan(from, receiver, payment, fund, rented, run.now + 2592000000000), r, k);
    }
  }

  /** The price of the loan. */
  lemma RentedNow(s: State, res: Resource, from: Name, receiver: Name, payment: int, fund: int) returns (rented: int)
    requires Invariant(s) && Rent(s, res, from, receiver, payment, fund).Ok?
    ensures RunRex(s, 2).Ok? && Rents(RunRex(s, 2).value.pool, payment, rented)
  {
    hide Books, Kept, RunRex, OpenLoan, TransferFromFund, LoansAvailable, ExchangeState.BancorOutput;
    RunRexKeeps(s, 2);
    var p := RunRex(s, 2).value.pool;
    KeptHasBooks(s, RunRex(s, 2).value, 0, 0, Delta(0, 0, 0));
    PoolIsBalanced(RunRex(s, 2).value, 0, 0, Delta(0, 0, 0));
    ExchangeState.BancorFloor(p.rent, p.unlent, payment);
    rented := ExchangeState.BancorOutput(p.rent, p.unlent, payment).value;
  }

  /** A new loan runs longer than one that has expired. */
  lemma OpenedHandles(s: State, run: State, t: State, res: Resource, number: int, loan: Loan, r: Resource, k: int)
    requires LoanOpened(run.(funds := t.funds), t, res, number, loan) && s.now < loan.expiration
    requires DueFirst(s, r, k) && Handled(s, run, r, k)
    ensures Handled(s, t, r, k)
  {
    hide EntitlesTo, ExpiresFirst;
    var a := run.(funds := t.funds);
    assert LoansOf(a, r) == LoansOf(run, r);
    if r == res && k == number {
    } else if k in LoansOf(t, r) {
      assert k in LoansOf(a, r) && LoansOf(t, r)[k] == LoansOf(a, r)[k];
    }
  }

  lemma UpdateRexAdvances(s: State, owner: Name)
    requires Invariant(s) && UpdateRex(s, owner).Ok?
    ensures Advanced(s, UpdateRex(s, owner).value)
  {
    hide Invariant, RunRex, UpdateRexAccount, Mature, Advanced;
    UpdateRexAccountFrame(RunRex(s, 2).value, owner, 0);
    RunThenSame(s, s, UpdateRex(s, owner).value);
  }

  lemma ConsolidateAdvances(s: State, owner: Name)
    requires Invariant(s) && ConsolidateRex(s, owner).Ok?
    ensures Advanced(s, ConsolidateRex(s, owner).value)
  {
    hide Invariant, RunRex, UpdateRexAccount, Consolidate, Advanced;
    UpdateRexAccountFrame(RunRex(s, 2).value, owner, 0);
    RunThenSame(s, s, ConsolidateRex(s, owner).value);
  }

  lemma MoveToSavingsAdvances(s: State, owner: Name, rex: int)
    requires Invariant(s) && MoveRexToSavings(s, owner, rex).Ok?
    ensures Advanced(s, MoveRexToSavings(s, owner, rex).value)
  {
    hide Invariant, RunRex, UpdateRexAccount, MoveToSavings, Advanced;
    UpdateRexAccountFrame(RunRex(s, 2).value, owner, 0);
    RunThenSame(s, s, MoveRexToSavings(s, owner, rex).value);
  }

  lemma MoveFromSavingsAdvances(s: State, owner: Name, rex: int)
    requires Invariant(s) && MoveRexFromSavings(s, owner, rex).Ok?
    ensures Advanced(s, MoveRexFromSavings(s, owner, rex).value)
  {
    hide Invariant, RunRex, UpdateRexAccount, MoveFromSavings, Advanced;
    var run := RunRex(s, 2).value;
    var row := MoveFromSavings(run.balances[owner], rex, run.Seconds()).value;
    UpdateRexAccountFrame(WithRow(run, owner, row), owner, 0);
    RunThenSame(s, s, MoveRexFromSavings(s, owner, rex).value);
  }

  lemma CloseRexAdvances(s: State, owner: Name)
    requires Invariant(s) && s.initialized && CloseRex(s, owner).Ok?
    ensures Advanced(s, CloseRex(s, owner).value)
  {
    hide Invariant, RunRex, CloseRows, Advanced;
    CloseRowsFrame(RunRex(s, 2).value, owner);
    RunThenSame(s, s, CloseRex(s, owner).value);
  }

  lemma CloseRowsFrame(s: State, owner: Name)
    requires CloseRows(s, owner).Ok?
    ensures var t := CloseRows(s, owner).value;
      t == s.(funds := t.funds, orders := t.orders, balances := t.balances)
  {
    hide UpdateRexAccount, WithoutFund;
    UpdateRexAccountFrame(s, owner, 0);
    RexLocked.FundClosed(UpdateRexAccount(s, owner, 0).0, owner);
  }

  /** The actions that start with runrex, or with a purchase and runrex. */
  predicate Runs(s: State, a: SystemActions.Action) {
    match a
    case BuyRex(_, _) => true
    case UnstakeToRex(_, _, _, _) => true
    case SellRex(_, _) => true
    case Rent(_, _, _, _, _) => true
    case UpdateRex(_) => true
    case RexExec(max) => max > 0
    case Consolidate(_) => true
    case MoveToSavings(_, _) => true
    case MoveFromSavings(_, _) => true
    case CloseRex(_) => s.initialized
    case _ => false
  }

  /**
   * Each of them that goes through closes or renews the expired loan that was first for CPU, and the one for NET: expired
   * loans are worked off as long as REX is used at all.
   */
  lemma StepAdvances(s: State, a: SystemActions.Action)
    requires Invariant(s) && Runs(s, a) && SystemActions.Step(s, a).Ok?
    ensures Advanced(s, SystemActions.Step(s, a).value)
  {
    hide Invariant, Advanced, BuyRex, UnstakeToRex, SellRex, Rent, UpdateRex, RunRex, ConsolidateRex, MoveRexToSavings,
      MoveRexFromSavings, CloseRex;
    match a
    case BuyRex(from, amount) => BuyRexAdvances(s, from, amount);
    case UnstakeToRex(owner, receiver, fromNet, fromCpu) => UnstakeToRexAdvances(s, owner, receiver, fromNet, fromCpu);
    case SellRex(from, rex) => SellRexAdvances(s, from, rex);
    case Rent(res, from, receiver, payment, fund) => RentAdvances(s, res, from, receiver, payment, fund);
    case UpdateRex(owner) => UpdateRexAdvances(s, owner);
    case RexExec(max) => RunRexAdvances(s, max);
    case Consolidate(owner) => ConsolidateAdvances(s, owner);
    case MoveToSavings(owner, rex) => MoveToSavingsAdvances(s, owner, rex);
    case MoveFromSavings(owner, rex) => MoveFromSavingsAdvances(s, owner, rex);
    case CloseRex(owner) => CloseRexAdvances(s, owner);
    case _ =>
  }

  // ---- the queue

  /** With nothing else for runrex to do, the first order of the queue is filled when there are tokens for it. */
  lemma FirstOrderFilled(s: State, max: nat, o: Name, proceeds: int)
    requires Invariant(s) && s.initialized && max > 0 && s.pool.namebid == 0
    requires forall res, k :: k in LoansOf(s, res) ==> s.now < LoansOf(s, res)[k].expiration
    requires RexOrders.NextInQueue(s.orders, (-1, -1), o)
    requires Worth(s.pool, s.orders[o].requested, proceeds) && RexOrders.SellsNow(s.pool, proceeds)
    requires RunRex(s, max).Ok?
    ensures var t := RunRex(s, max).value; o in t.orders && !t.orders[o].isOpen && t.orders[o].proceeds == proceeds
  {
    hide Invariant, RunOrders, FillQueued, Worth, RexOrders.SellsNow, OtherOrders, OtherRows;
    NothingExpired(s, Cpu, max);
    NothingExpired(s, Net, max);
    RexOrders.FillQueuedExactly(s, o, proceeds);
    RexOrders.OldestFirst(s, (-1, -1), max, o);
    var next := FillQueued(s, o).value;
    ClosedStays(next, (s.orders[o].time, o), max - 1, o);
  }

  lemma NothingExpired(s: State, res: Resource, max: nat)
    requires forall k :: k in LoansOf(s, res) ==> s.now < LoansOf(s, res)[k].expiration
    ensures RunLoans(s, res, max) == Ok(s)
  {
    hide ProcessExpired;
    var index := ByExpiry(LoansOf(s, res));
    if index != {} {
      var least := Least(index);
      assert least.1 in LoansOf(s, res) && least.0 == LoansOf(s, res)[least.1].expiration;
    }
  }

  /** runrex leaves an order alone once it has been filled. */
  lemma {:induction false} ClosedStays(s: State, after: (int, int), max: nat, o: Name)
    requires o in s.orders && !s.orders[o].isOpen && RunOrders(s, after, max).Ok?
    ensures var t := RunOrders(s, after, max).value; o in t.orders && t.orders[o] == s.orders[o]
    decreases max
  {
    hide FillQueued;
    if max == 0 || OpenAfter(s.orders, after) == {} {
    } else {
      var first := Least(OpenAfter(s.orders, after));
      FilledOther(s, first.1, o);
      ClosedStays(FillQueued(s, first.1).value, first, max - 1, o);
    }
  }

  lemma FilledOther(s: State, owner: Name, o: Name)
    requires owner in s.orders && s.orders[owner].isOpen && FillQueued(s, owner).Ok?
    requires o in s.orders && !s.orders[o].isOpen
    ensures var t := FillQueued(s, owner).value; o in t.orders && t.orders[o] == s.orders[o]
  {
    hide RexPool.FillOrder, Debit;
  }
}
