/** The system contract itself: its tables, and the actions that change them in place. */
module SystemContract {
  import opened ExchangeState
  import opened Outcomes
  import opened RexMaturities
  import opened RexPool
  import opened SystemTables
  import RexLedger
  import Bandwidth
  import SystemActions
  import SystemBooks
  import SystemSafety

  class Contract {
    var now: nat
    var initialized: bool
    var pool: Pool
    var funds: map<Name, int>
    var balances: map<Name, Balance>
    var cpuLoans: map<int, Loan>
    var netLoans: map<int, Loan>
    var orders: map<Name, Order>
    var delegations: map<(Name, Name), Delegation>
    var totals: map<Name, Resources>
    var refunds: map<Name, Refund>
    var tokens: map<Name, int>
    var rexGifts: int
    var stakeGifts: int

    function Snapshot(): State
      reads this
    {
      State(now, initialized, pool, funds, balances, cpuLoans, netLoans, orders, delegations, totals, refunds, tokens,
            rexGifts, stakeGifts)
    }

    /** A chain on which nobody has staked, funded or bought anything yet. */
    constructor (start: nat, ledger: map<Name, int>)
      requires Clock(start / 1000000) && AmountOf(ledger, REX_ACCOUNT) == 0 && AmountOf(ledger, STAKE_ACCOUNT) == 0
      ensures SystemActions.Genesis(Snapshot()) && now == start && tokens == ledger
    {
      now, initialized, pool := start, false, Pool(0, 0, 0, 0, 0, 0, 0);
      funds, balances, cpuLoans, netLoans, orders := map[], map[], map[], map[], map[];
      delegations, totals, refunds := map[], map[], map[];
      tokens, rexGifts, stakeGifts := ledger, 0, 0;
    }

    /** The outcome is the specified one, and on success so is the state. */
    ghost predicate Implements(out: Outcome<()>, spec: Outcome<State>)
      reads this
    {
      if out.Ok? then spec == Ok(Snapshot()) else SameFailure(out, spec)
    }

    // ---- tokens, funds and totals

    method TransferTokens(from: Name, to: Name, amount: int) returns (out: Outcome<()>)
      modifies `tokens
      ensures Implements(out, Transfer(old(Snapshot()), from, to, amount))
    {
      var allowed := from != to && 0 < amount;
      :- Check(allowed);
      var covered := amount <= AmountOf(tokens, from);
      :- if from == REX_ACCOUNT || from == STAKE_ACCOUNT then Expected(covered, Overdrawn) else Check(covered);
      tokens := tokens[from := AmountOf(tokens, from) - amount];
      tokens := tokens[to := AmountOf(tokens, to) + amount];
      return Ok(());
    }

    method TransferFromFund(owner: Name, amount: int) returns (out: Outcome<()>)
      modifies `funds
      ensures Implements(out, RexLedger.TransferFromFund(old(Snapshot()), owner, amount))
    {
      var allowed := 0 < amount;
      :- Check(allowed);
      :- Check(owner in funds);
      :- Check(amount <= funds[owner]);
      funds := funds[owner := funds[owner] - amount];
      return Ok(());
    }

    method TransferToFund(owner: Name, amount: int) returns (out: Outcome<()>)
      modifies `funds
      ensures Implements(out, RexLedger.TransferToFund(old(Snapshot()), owner, amount))
    {
      var allowed := 0 < amount;
      :- Check(allowed);
      if owner !in funds {
        funds := funds[owner := amount];
      } else {
        funds := funds[owner := funds[owner] + amount];
      }
      return Ok(());
    }

    method UpdateResourceLimits(receiver: Name, deltaNet: int, deltaCpu: int) returns (out: Outcome<()>)
      modifies `totals
      ensures Implements(out, SystemTables.UpdateResourceLimits(old(Snapshot()), receiver, deltaNet, deltaCpu))
    {
      if deltaCpu == 0 && deltaNet == 0 {
        return Ok(());
      }
      var row: Resources;
      if receiver !in totals {
        var holds := 0 <= deltaNet && 0 <= deltaCpu;
        :- Expected(holds, LogicError);
        row := Resources(deltaNet, deltaCpu, 0);
      } else {
        row := totals[receiver];
        row := row.(net := row.net + deltaNet, cpu := row.cpu + deltaCpu);
      }
      :- Expected(0 <= row.net && 0 <= row.cpu, NegativeTotals);
      if row.net == 0 && row.cpu == 0 && row.ram == 0 {
        totals := totals - {receiver};
      } else {
        totals := totals[receiver := row];
      }
      return Ok(());
    }

    // ---- the pool

    method AddToRexPool(payment: int) returns (out: Outcome<int>)
      modifies `pool, `initialized
      ensures out.Ok? ==> initialized && AddToPool(old(pool), old(initialized), payment) == Ok((pool, out.value))
      ensures !out.Ok? ==> SameFailure(out, AddToPool(old(pool), old(initialized), payment))
    {
      var received: int;
      if !initialized {
        received := payment * 10000;
        initialized := true;
        pool := Pool(0, payment, INIT_TOTAL_RENT, payment, received, 0, 0);
      } else if pool.rex <= 0 {
        received := payment * 10000;
        pool := pool.(lendable := payment, lent := 0);
        pool := pool.(unlent := pool.lendable - pool.lent, rent := INIT_TOTAL_RENT, rex := received);
      } else {
        var holds := pool.lendable > 0;
        :- Expected(holds, EmptyPool);
        var s0, r0 := pool.lendable, pool.rex;
        var s1 := s0 + payment;
        var r1 := MulDiv(s1, r0, s0);
        received := r1 - r0;
        pool := pool.(lendable := s1, rex := r1);
        pool := pool.(unlent := pool.lendable - pool.lent);
        :- Expected(pool.unlent >= 0, NegativeUnlent);
      }
      return Ok(received);
    }

    method AddLoanToRexPool(payment: int, rented: int, isNew: bool)
      modifies `pool
      ensures pool == AddLoan(old(pool), payment, rented, isNew)
    {
      pool := pool.(rent := pool.rent + payment);
      pool := pool.(unlent := pool.unlent - rented, lent := pool.lent + rented);
      pool := pool.(unlent := pool.unlent + payment);
      pool := pool.(lendable := pool.unlent + pool.lent);
      if isNew {
        pool := pool.(loanNum := pool.loanNum + 1);
      }
    }

    method RemoveLoanFromRexPool(staked: int) returns (out: Outcome<()>)
      modifies `pool
      ensures out.Ok? ==> RemoveLoan(old(pool), staked) == Ok(pool)
      ensures !out.Ok? ==> SameFailure(out, RemoveLoan(old(pool), staked))
    {
      var deltaRent :- BancorOutput(pool.unlent, pool.rent, staked);
      pool := pool.(rent := pool.rent - deltaRent);
      pool := pool.(unlent := pool.unlent + staked, lent := pool.lent - staked);
      pool := pool.(lendable := pool.unlent + pool.lent);
      return Ok(());
    }

    // ---- maturities

    method ProcessRexMaturities(owner: Name)
      requires owner in balances
      modifies `balances
      ensures balances == old(balances)[owner := Mature(old(balances[owner]), now / 1000000)]
    {
      var sec := now / 1000000;
      var rb := balances[owner];
      while rb.buckets != [] && rb.buckets[0].time <= sec
        invariant Mature(rb, sec) == Mature(balances[owner], sec)
        decreases |rb.buckets|
      {
        rb := rb.(matured := rb.matured + rb.buckets[0].amount);
        rb := rb.(buckets := rb.buckets[1..]);
      }
      balances := balances[owner := rb];
    }

    /** read_rex_savings: the savings bucket is taken out of the row. */
    method ReadRexSavings(owner: Name) returns (savings: int)
      requires owner in balances
      modifies `balances
      ensures savings == Savings(old(balances[owner]))
      ensures balances == old(balances)[owner := WithoutSavings(old(balances[owner]))]
    {
      savings := 0;
      var rb := balances[owner];
      var n := |rb.buckets|;
      if n > 0 && rb.buckets[n - 1].time == END_OF_DAYS {
        savings := rb.buckets[n - 1].amount;
        rb := rb.(buckets := rb.buckets[..n - 1]);
      }
      balances := balances[owner := rb];
    }

    method AddToBucket(owner: Name, time: int, amount: int)
      requires owner in balances
      modifies `balances
      ensures balances == old(balances)[owner := AddBucket(old(balances[owner]), time, amount)]
    {
      var rb := balances[owner];
      var n := |rb.buckets|;
      if n > 0 && rb.buckets[n - 1].time == time {
        rb := rb.(buckets := rb.buckets[n - 1 := Bucket(time, rb.buckets[n - 1].amount + amount)]);
      } else {
        rb := rb.(buckets := rb.buckets + [Bucket(time, amount)]);
      }
      balances := balances[owner := rb];
    }

    method PutRexSavings(owner: Name, amount: int)
      requires owner in balances
      modifies `balances
      ensures balances == old(balances)[owner := PutSavings(old(balances[owner]), amount)]
    {
      if amount != 0 {
        AddToBucket(owner, END_OF_DAYS, amount);
      } else {
        assert balances[owner := balances[owner]] == balances;
      }
    }

    method AddToRexBalance(owner: Name, received: int)
      modifies `balances
      ensures var row := if owner in old(balances) then old(balances)[owner] else Balance(0, 0, []);
        balances == old(balances)[owner := Credit(row, received, now / 1000000)]
    {
      hide Mature, WithoutSavings, AddBucket, PutSavings, Savings, Maturity;
      ghost var row := if owner in balances then balances[owner] else Balance(0, 0, []);
      if owner !in balances {
        balances := balances[owner := Balance(received, 0, [])];
      } else {
        balances := balances[owner := balances[owner].(rex := balances[owner].rex + received)];
      }
      SavingsOfGrown(row, received);
      var savings := ReadRexSavings(owner);
      ProcessRexMaturities(owner);
      AddToBucket(owner, Maturity(now / 1000000), received);
      PutRexSavings(owner, savings);
      assert balances[owner] == Credit(row, received, now / 1000000);
    }

    method ConsolidateRexBalance(owner: Name, inOrder: int)
      requires owner in balances
      modifies `balances
      ensures balances == old(balances)[owner := Consolidate(old(balances[owner]), inOrder, now / 1000000)]
    {
      hide WithoutSavings, AddBucket, PutSavings, Savings, Maturity;
      var savings := ReadRexSavings(owner);
      var rb := balances[owner];
      var total := rb.matured - inOrder;
      rb := rb.(matured := inOrder);
      ghost var was, rows := balances[owner], balances;
      while rb.buckets != []
        invariant balances == rows
        invariant rb == was.(matured := inOrder, buckets := rb.buckets)
        invariant total + RexMaturities.Total(rb.buckets) == was.matured - inOrder + RexMaturities.Total(was.buckets)
        decreases |rb.buckets|
      {
        TotalFront(rb.buckets);
        total := total + rb.buckets[0].amount;
        rb := rb.(buckets := rb.buckets[1..]);
      }
      balances := balances[owner := rb];
      if total > 0 {
        AddToBucket(owner, Maturity(now / 1000000), total);
      }
      PutRexSavings(owner, savings);
      assert balances[owner] == Consolidate(old(balances[owner]), inOrder, now / 1000000);
    }

    /** The loop of mvtosavings. */
    method TakeBuckets(owner: Name, rex: int) returns (moved: int)
      requires owner in balances
      modifies `balances
      ensures moved == TakeFromBack(old(balances[owner]).buckets, 0, rex).1
      ensures balances == old(balances)[owner :=
                old(balances[owner]).(buckets := TakeFromBack(old(balances[owner]).buckets, 0, rex).0)]
    {
      var rb := balances[owner];
      moved := 0;
      while rb.buckets != [] && moved < rex
        invariant rb == balances[owner].(buckets := rb.buckets)
        invariant TakeFromBack(rb.buckets, moved, rex) == TakeFromBack(balances[owner].buckets, 0, rex)
        decreases |rb.buckets|, rex - moved
      {
        var n := |rb.buckets|;
        var back := rb.buckets[n - 1];
        var drex := if rex - moved <= back.amount then rex - moved else back.amount;
        moved := moved + drex;
        if back.amount - drex == 0 {
          rb := rb.(buckets := rb.buckets[..n - 1]);
        } else {
          rb := rb.(buckets := rb.buckets[n - 1 := Bucket(back.time, back.amount - drex)]);
        }
      }
      balances := balances[owner := rb];
    }

    // ---- accounts and fees

    /** update_rex_account; the result is the REX in the owner's open order. */
    method UpdateRexAccount(owner: Name, proceeds: int) returns (pending: int)
      modifies `funds, `orders
      ensures (Snapshot(), pending) == RexLedger.UpdateRexAccount(old(Snapshot()), owner, proceeds)
    {
      var toFund := proceeds;
      pending := 0;
      if owner in orders {
        if orders[owner].isOpen {
          pending := orders[owner].requested;
        } else {
          toFund := toFund + orders[owner].proceeds;
          orders := orders - {owner};
        }
      }
      if toFund > 0 {
        var funded := TransferToFund(owner, toFund);
        assert funded.Ok?;
      }
    }

    method ChannelToRex(from: Name, amount: int, required: bool) returns (out: Outcome<()>)
      modifies `pool, `tokens
      ensures Implements(out, RexLedger.ChannelToRex(old(Snapshot()), from, amount, required))
    {
      if initialized && pool.rex > 0 {
        pool := pool.(unlent := pool.unlent + amount);
        pool := pool.(lendable := pool.lendable + amount);
        var _ :- TransferTokens(from, REX_ACCOUNT, amount);
        return Ok(());
      }
      :- Check(!required);
      return Ok(());
    }

    // ---- expired loans

    /** The first entry of an index. */
    method FindLeast(keys: set<(int, int)>) returns (least: (int, int))
      requires keys != {}
      ensures least == Least(keys)
    {
      least :| least in keys;
      var rest := keys - {least};
      while rest != {}
        invariant rest <= keys && least in keys
        invariant forall k :: k in keys - rest ==> Before(least, k)
        decreases |rest|
      {
        var k :| k in rest;
        ghost var was, seen := least, keys - rest;
        if Before(k, least) {
          least := k;
        }
        rest := rest - {k};
        forall j | j in keys - rest
          ensures Before(least, j)
        {
          assert j == k || (j in seen && Before(was, j));
        }
      }
      LeastUnique(keys, least);
    }

    method RenewLoan(res: Resource, k: int, rented: int)
      requires k in LoansOf(Snapshot(), res)
      modifies `pool, `cpuLoans, `netLoans
      ensures Snapshot() == RexLedger.RenewLoan(old(Snapshot()), res, k, rented)
    {
      var loan := LoansOf(Snapshot(), res)[k];
      AddLoanToRexPool(loan.payment, rented, false);
      WriteLoan(res, k, loan.(staked := rented, expiration := loan.expiration + LOAN_TERM,
                              balance := loan.balance - loan.payment));
    }

    method CloseLoan(res: Resource, k: int) returns (out: Outcome<()>)
      requires k in LoansOf(Snapshot(), res)
      modifies `cpuLoans, `netLoans, `funds
      ensures Implements(out, RexLedger.CloseLoan(old(Snapshot()), res, k))
    {
      var loan := LoansOf(Snapshot(), res)[k];
      EraseLoan(res, k);
      out := Ok(());
      if loan.balance > 0 {
        out := TransferToFund(loan.from, loan.balance);
      }
    }

    method RenewOrClose(res: Resource, k: int, rented: int) returns (out: Outcome<()>)
      requires k in LoansOf(Snapshot(), res)
      modifies `pool, `cpuLoans, `netLoans, `funds, `totals
      ensures Implements(out, RexLedger.RenewOrClose(old(Snapshot()), res, k, rented))
    {
      hide RexLedger.RenewLoan, RexLedger.CloseLoan, SystemTables.UpdateLimit, RexLedger.LoansAvailable;
      var loan := LoansOf(Snapshot(), res)[k];
      var deltaStake := -loan.staked;
      if loan.payment <= loan.balance && loan.payment < rented && RexLedger.LoansAvailable(Snapshot()) {
        RenewLoan(res, k, rented);
        deltaStake := rented - loan.staked;
      } else {
        var _ :- CloseLoan(res, k);
      }
      out := UpdateLimit(res, loan.receiver, deltaStake);
    }

    /** process_expired_loan, with what runrex does about its result. */
    method ProcessExpiredLoan(res: Resource, k: int) returns (out: Outcome<()>)
      requires k in LoansOf(Snapshot(), res)
      modifies `pool, `cpuLoans, `netLoans, `funds, `totals
      ensures Implements(out, RexLedger.ProcessExpired(old(Snapshot()), res, k))
    {
      hide RemoveLoan, BancorOutput, RexLedger.RenewOrClose;
      var loan := LoansOf(Snapshot(), res)[k];
      var _ :- RemoveLoanFromRexPool(loan.staked);
      var rented :- BancorOutput(pool.rent, pool.unlent, loan.payment);
      out := RenewOrClose(res, k, rented);
    }

    method UpdateLimit(res: Resource, receiver: Name, delta: int) returns (out: Outcome<()>)
      modifies `totals
      ensures Implements(out, SystemTables.UpdateLimit(old(Snapshot()), receiver, res, delta))
    {
      if res.Cpu? {
        out := UpdateResourceLimits(receiver, 0, delta);
      } else {
        out := UpdateResourceLimits(receiver, delta, 0);
      }
    }

    method WriteLoan(res: Resource, k: int, loan: Loan)
      modifies `cpuLoans, `netLoans
      ensures Snapshot() == WithLoans(old(Snapshot()), res, LoansOf(old(Snapshot()), res)[k := loan])
    {
      if res.Cpu? {
        cpuLoans := cpuLoans[k := loan];
      } else {
        netLoans := netLoans[k := loan];
      }
    }

    method EraseLoan(res: Resource, k: int)
      modifies `cpuLoans, `netLoans
      ensures Snapshot() == WithLoans(old(Snapshot()), res, LoansOf(old(Snapshot()), res) - {k})
    {
      if res.Cpu? {
        cpuLoans := cpuLoans - {k};
      } else {
        netLoans := netLoans - {k};
      }
    }

    method RunLoans(res: Resource, max: nat) returns (out: Outcome<()>)
      modifies `pool, `cpuLoans, `netLoans, `funds, `totals
      ensures Implements(out, RexLedger.RunLoans(old(Snapshot()), res, max))
    {
      hide RexLedger.ProcessExpired;
      var i := 0;
      while i < max
        invariant i <= max
        invariant RexLedger.RunLoans(Snapshot(), res, max - i) == RexLedger.RunLoans(old(Snapshot()), res, max)
      {
        var index := ByExpiry(LoansOf(Snapshot(), res));
        if index == {} {
          return Ok(());
        }
        var first := FindLeast(index);
        if first.0 > now {
          return Ok(());
        }
        var _ :- ProcessExpiredLoan(res, first.1);
        i := i + 1;
      }
      return Ok(());
    }

    // ---- sell orders

    /** fill_rex_order: whether the order was filled, and its proceeds. */
    method FillRexOrder(owner: Name, rex: int) returns (out: Outcome<(bool, int)>)
      requires owner in balances
      modifies `pool, `balances
      ensures !FillOrder(old(pool), rex).Ok? ==> SameFailure(out, FillOrder(old(pool), rex))
      ensures FillOrder(old(pool), rex) == Ok(Unfilled) ==>
        out == Ok((false, 0)) && pool == old(pool) && balances == old(balances)
      ensures FillOrder(old(pool), rex).Ok? && FillOrder(old(pool), rex).value.Filled? ==>
        && out == Ok((true, FillOrder(old(pool), rex).value.proceeds))
        && pool == FillOrder(old(pool), rex).value.pool
        && balances == old(balances)[owner := Debit(old(balances)[owner], rex)]
    {
      var holds := pool.rex != 0;
      :- Expected(holds, DivisionByZero);
      var s0, r0 := pool.lendable, pool.rex;
      var p := MulDiv(rex, s0, r0);
      var r1, s1 := r0 - rex, s0 - p;
      var lowerBound := (2 * pool.lent) / 10;
      if p <= pool.unlent - lowerBound {
        pool := pool.(rex := r1, lendable := s1);
        pool := pool.(unlent := pool.lendable - pool.lent);
        balances := balances[owner := balances[owner].(rex := balances[owner].rex - rex,
                                                       matured := balances[owner].matured - rex)];
        return Ok((true, p));
      }
      return Ok((false, 0));
    }

    method FillQueuedOrder(owner: Name) returns (out: Outcome<()>)
      requires owner in orders
      modifies `pool, `balances, `orders
      ensures Implements(out, RexLedger.FillQueued(old(Snapshot()), owner))
    {
      hide RexPool.FillOrder;
      if owner in balances {   // should always be true
        var result :- FillRexOrder(owner, orders[owner].requested);
        if result.0 {
          orders := orders[owner := orders[owner].(proceeds := result.1, isOpen := false)];
        }
      }
      return Ok(());
    }

    /** The orders in order of time; the successor of an order is looked up before it is filled. */
    method RunOrders(max: nat) returns (out: Outcome<()>)
      modifies `pool, `balances, `orders
      ensures Implements(out, RexLedger.RunOrders(old(Snapshot()), (-1, -1), max))
    {
      hide RexLedger.FillQueued, Least;
      var i, after := 0, (-1, -1);
      var index := OpenAfter(orders, after);
      while i < max && index != {}
        invariant i <= max
        invariant index == OpenAfter(orders, after)
        invariant RexLedger.RunOrders(Snapshot(), after, max - i) == RexLedger.RunOrders(old(Snapshot()), (-1, -1), max)
        decreases max - i
      {
        var current := FindLeast(index);
        index := OpenAfter(orders, current);
        ghost var was := Snapshot();
        var _ :- FillQueuedOrder(current.1);
        SuccessorsStay(was, Snapshot(), current.1, current);
        after := current;
        i := i + 1;
      }
      return Ok(());
    }

    method RunRex(max: nat) returns (out: Outcome<()>)
      modifies `pool, `cpuLoans, `netLoans, `funds, `totals, `balances, `orders, `tokens
      ensures Implements(out, RexLedger.RunRex(old(Snapshot()), max))
    {
      hide RexLedger.RunLoans, RexLedger.RunOrders, RexLedger.ChannelToRex;
      :- Check(initialized);
      if pool.namebid > 0 {
        var _ :- ChannelToRex(NAMES_ACCOUNT, pool.namebid, false);
        pool := pool.(namebid := 0);
      }
      var _ :- RunLoans(Cpu, max);
      var _ :- RunLoans(Net, max);
      var _ :- RunOrders(max);
      return Ok(());
    }

    // ---- the actions of rex.cpp

    method Deposit(owner: Name, amount: int) returns (out: Outcome<()>)
      modifies this
      ensures Implements(out, RexLedger.Deposit(old(Snapshot()), owner, amount))
    {
      var allowed := 0 < amount;
      :- Check(allowed);
      var _ :- TransferTokens(owner, REX_ACCOUNT, amount);
      out := TransferToFund(owner, amount);
    }

    method Withdraw(owner: Name, amount: int) returns (out: Outcome<()>)
      modifies this
      ensures Implements(out, RexLedger.Withdraw(old(Snapshot()), owner, amount))
    {
      hide RexLedger.UpdateRexAccount, RexLedger.TransferFromFund, Transfer;
      :- Check(0 < amount);
      var _ := UpdateRexAccount(owner, 0);
      var _ :- TransferFromFund(owner, amount);
      out := TransferTokens(REX_ACCOUNT, owner, amount);
    }

    /** add_to_rex_pool and add_to_rex_balance. */
    method Buy(owner: Name, payment: int) returns (out: Outcome<()>)
      modifies this
      ensures Implements(out, RexLedger.Buy(old(Snapshot()), owner, payment))
    {
      hide AddToPool, Credit;
      var received :- AddToRexPool(payment);
      AddToRexBalance(owner, received);
      return Ok(());
    }

    method BuyRex(from: Name, amount: int) returns (out: Outcome<()>)
      modifies this
      ensures Implements(out, RexLedger.BuyRex(old(Snapshot()), from, amount))
    {
      hide RexLedger.TransferFromFund, RexLedger.Buy, RexLedger.RunRex, RexLedger.UpdateRexAccount;
      :- Check(0 < amount);
      var _ :- TransferFromFund(from, amount);
      var _ :- Buy(from, amount);
      var _ :- RunRex(2);
      var _ := UpdateRexAccount(from, 0);
      return Ok(());
    }

    method Undelegate(owner: Name, receiver: Name, fromNet: int, fromCpu: int) returns (out: Outcome<()>)
      modifies this
      ensures Implements(out, RexLedger.Undelegate(old(Snapshot()), owner, receiver, fromNet, fromCpu))
    {
      var key := (owner, receiver);
      :- Check(key in delegations);
      :- Check(fromNet <= delegations[key].net && fromCpu <= delegations[key].cpu);
      delegations := delegations[key := Delegation(delegations[key].net - fromNet, delegations[key].cpu - fromCpu)];
      if delegations[key].net == 0 && delegations[key].cpu == 0 {
        delegations := delegations - {key};
      }
      assert delegations == WithDelegation(old(delegations), key,
                                           Delegation(old(delegations)[key].net - fromNet, old(delegations)[key].cpu - fromCpu));
      return Ok(());
    }

    method UnstakeToRex(owner: Name, receiver: Name, fromNet: int, fromCpu: int) returns (out: Outcome<()>)
      modifies this
      ensures Implements(out, RexLedger.UnstakeToRex(old(Snapshot()), owner, receiver, fromNet, fromCpu))
    {
      hide RexLedger.Undelegate, SystemTables.UpdateResourceLimits, Transfer, RexLedger.Buy, RexLedger.RunRex,
        RexLedger.UpdateRexAccount;
      :- Check(0 <= fromNet && 0 <= fromCpu && 0 < fromNet + fromCpu);
      var _ :- Undelegate(owner, receiver, fromNet, fromCpu);
      var _ :- UpdateResourceLimits(receiver, -fromNet, -fromCpu);
      var payment := fromNet + fromCpu;
      var _ :- TransferTokens(STAKE_ACCOUNT, REX_ACCOUNT, payment);
      var _ :- Buy(owner, payment);
      var _ :- RunRex(2);
      var _ := UpdateRexAccount(owner, 0);
      return Ok(());
    }

    method SellRex(from: Name, rex: int) returns (out: Outcome<()>)
      modifies this
      ensures Implements(out, RexLedger.SellRex(old(Snapshot()), from, rex))
    {
      hide RexLedger.RunRex, RexLedger.SellMatured, Mature;
      var _ :- RunRex(2);
      :- Check(from in balances && rex > 0);
      ProcessRexMaturities(from);
      out := SellMatured(from, rex);
    }

    method SellMatured(from: Name, rex: int) returns (out: Outcome<()>)
      requires from in balances
      modifies this
      ensures Implements(out, RexLedger.SellMatured(old(Snapshot()), from, rex))
    {
      hide RexPool.FillOrder;
      :- Check(rex <= balances[from].matured);
      var order :- FillRexOrder(from, rex);
      if order.0 {
        var allowed := order.1 != 0;
        :- Check(allowed);
        out := SettleSale(from, order.1);
      } else {
        out := QueueOrder(from, rex);
      }
    }

    /** The proceeds of a filled order go to the fund. */
    method SettleSale(from: Name, proceeds: int) returns (out: Outcome<()>)
      requires from in balances
      modifies `funds, `orders
      ensures var spec := RexLedger.UpdateRexAccount(old(Snapshot()), from, proceeds);
        Implements(out, if spec.1 <= old(balances)[from].matured then Ok(spec.0) else Refused)
    {
      hide RexLedger.UpdateRexAccount;
      var pending := UpdateRexAccount(from, proceeds);
      :- Check(pending <= balances[from].matured);
      return Ok(());
    }

    /** An order that cannot be filled joins the queue, or is added to the owner's order there. */
    method QueueOrder(from: Name, rex: int) returns (out: Outcome<()>)
      requires from in balances
      modifies `funds, `orders
      ensures var spec := RexLedger.UpdateRexAccount(old(Snapshot()), from, 0);
        Implements(out, RexLedger.Enqueue(spec.0, from, rex))
    {
      hide RexLedger.UpdateRexAccount;
      var _ := UpdateRexAccount(from, 0);
      :- Check(from != B1);
      if from !in orders {
        orders := orders[from := Order(rex, 0, now, true)];
      } else {
        orders := orders[from := orders[from].(requested := orders[from].requested + rex)];
      }
      :- Check(orders[from].requested <= balances[from].matured);
      return Ok(());
    }

    method CancelRexOrder(owner: Name) returns (out: Outcome<()>)
      modifies this
      ensures Implements(out, RexLedger.CancelRexOrder(old(Snapshot()), owner))
    {
      var allowed := owner in orders;
      :- Check(allowed);
      :- Check(orders[owner].isOpen);
      orders := orders - {owner};
      return Ok(());
    }

    /** rentcpu and rentnet. */
    method Rent(res: Resource, from: Name, receiver: Name, payment: int, fund: int) returns (out: Outcome<()>)
      modifies this
      ensures Implements(out, RexLedger.Rent(old(Snapshot()), res, from, receiver, payment, fund))
    {
      hide RexLedger.RunRex, RexLedger.LoansAvailable, RexLedger.TransferFromFund, RexLedger.OpenLoan;
      var _ :- RunRex(2);
      :- Check(RexLedger.LoansAvailable(Snapshot()));
      :- Check(0 < payment && 0 <= fund);
      var _ :- TransferFromFund(from, payment + fund);
      out := OpenLoan(res, from, receiver, payment, fund);
    }

    method OpenLoan(res: Resource, from: Name, receiver: Name, payment: int, fund: int) returns (out: Outcome<()>)
      modifies this
      ensures Implements(out, RexLedger.OpenLoan(old(Snapshot()), res, from, receiver, payment, fund))
    {
      hide BancorOutput, AddLoan, SystemTables.UpdateLimit;
      var rented :- BancorOutput(pool.rent, pool.unlent, payment);
      :- Check(payment < rented);
      AddLoanToRexPool(payment, rented, true);
      :- Expected(pool.loanNum !in LoansOf(Snapshot(), res), DuplicateLoan);
      WriteLoan(res, pool.loanNum, Loan(from, receiver, payment, fund, rented, now + LOAN_TERM));
      out := UpdateLimit(res, receiver, rented);
    }

    method FundLoan(res: Resource, from: Name, k: int, payment: int) returns (out: Outcome<()>)
      modifies this
      ensures Implements(out, RexLedger.FundLoan(old(Snapshot()), res, from, k, payment))
    {
      var _ :- TransferFromFund(from, payment);
      var loans := LoansOf(Snapshot(), res);
      :- Check(k in loans);
      :- Check(loans[k].from == from && loans[k].expiration > now);
      WriteLoan(res, k, loans[k].(balance := loans[k].balance + payment));
      return Ok(());
    }

    method DefundLoan(res: Resource, from: Name, k: int, amount: int) returns (out: Outcome<()>)
      modifies this
      ensures Implements(out, RexLedger.DefundLoan(old(Snapshot()), res, from, k, amount))
    {
      hide RexLedger.TransferToFund;
      var loans := LoansOf(Snapshot(), res);
      :- Check(k in loans);
      :- Check(loans[k].from == from && loans[k].expiration > now);
      :- Check(loans[k].balance >= amount);
      WriteLoan(res, k, loans[k].(balance := loans[k].balance - amount));
      out := TransferToFund(from, amount);
    }

    method UpdateRex(owner: Name) returns (out: Outcome<()>)
      modifies this
      ensures Implements(out, RexLedger.UpdateRex(old(Snapshot()), owner))
    {
      hide RexLedger.RunRex, Mature;
      var _ :- RunRex(2);
      :- Check(owner in balances);
      var _ := UpdateRexAccount(owner, 0);
      ProcessRexMaturities(owner);
      return Ok(());
    }

    method SetRex(balance: int) returns (out: Outcome<()>)
      modifies this
      ensures Implements(out, RexLedger.SetRex(old(Snapshot()), balance))
    {
      var allowed := balance > 0;
      :- Check(allowed);
      :- Check(initialized);
      pool := pool.(rent := balance);
      return Ok(());
    }

    method ConsolidateRex(owner: Name) returns (out: Outcome<()>)
      modifies this
      ensures Implements(out, RexLedger.ConsolidateRex(old(Snapshot()), owner))
    {
      hide RexLedger.RunRex, Consolidate;
      var _ :- RunRex(2);
      :- Check(owner in balances);
      var pending := UpdateRexAccount(owner, 0);
      ConsolidateRexBalance(owner, pending);
      return Ok(());
    }

    method MoveRexToSavings(owner: Name, rex: int) returns (out: Outcome<()>)
      modifies this
      ensures Implements(out, RexLedger.MoveRexToSavings(old(Snapshot()), owner, rex))
    {
      hide RexLedger.RunRex, RexMaturities.MoveToSavings;
      var _ :- RunRex(2);
      :- Check(owner in balances && rex > 0);
      var pending := UpdateRexAccount(owner, 0);
      out := MoveRowToSavings(owner, rex, pending);
    }

    method MoveRowToSavings(owner: Name, rex: int, inOrder: int) returns (out: Outcome<()>)
      requires owner in balances
      modifies `balances
      ensures var spec := RexMaturities.MoveToSavings(old(balances)[owner], rex, inOrder, now / 1000000);
        if out.Ok? then spec.Ok? && balances == old(balances)[owner := spec.value] else SameFailure(out, spec)
    {
      hide Mature, WithoutSavings, AddBucket, PutSavings, TakeFromBack, HasSavings, Savings;
      var savings := ReadRexSavings(owner);
      :- Check(rex + inOrder + savings <= balances[owner].rex);
      ProcessRexMaturities(owner);
      var moved := TakeBuckets(owner, rex);
      if moved < rex {
        var drex := rex - moved;
        balances := balances[owner := balances[owner].(matured := balances[owner].matured - drex)];
        moved := moved + drex;
        :- Expected(inOrder <= balances[owner].matured, SavingsLogic);
      }
      :- Expected(moved == rex, SavingsProgrammer);
      PutRexSavings(owner, savings + rex);
      return Ok(());
    }

    method MoveRexFromSavings(owner: Name, rex: int) returns (out: Outcome<()>)
      modifies this
      ensures Implements(out, RexLedger.MoveRexFromSavings(old(Snapshot()), owner, rex))
    {
      hide RexLedger.RunRex, RexMaturities.MoveFromSavings, RexLedger.UpdateRexAccount;
      var _ :- RunRex(2);
      :- Check(owner in balances && rex > 0);
      var _ :- MoveRowFromSavings(owner, rex);
      var _ := UpdateRexAccount(owner, 0);
      return Ok(());
    }

    method MoveRowFromSavings(owner: Name, rex: int) returns (out: Outcome<()>)
      requires owner in balances
      modifies `balances
      ensures var spec := RexMaturities.MoveFromSavings(old(balances)[owner], rex, now / 1000000);
        if out.Ok? then spec.Ok? && balances == old(balances)[owner := spec.value] else SameFailure(out, spec)
    {
      hide Mature, WithoutSavings, AddBucket, PutSavings, HasSavings, Savings, Maturity;
      var savings := ReadRexSavings(owner);
      :- Check(rex <= savings);
      ProcessRexMaturities(owner);
      AddToBucket(owner, Maturity(now / 1000000), rex);
      PutRexSavings(owner, savings - rex);
      return Ok(());
    }

    method CloseRex(owner: Name) returns (out: Outcome<()>)
      modifies this
      ensures Implements(out, RexLedger.CloseRex(old(Snapshot()), owner))
    {
      hide RexLedger.RunRex, RexLedger.CloseRows;
      if initialized {
        var _ :- RunRex(2);
      }
      out := CloseRows(owner);
    }

    method CloseRows(owner: Name) returns (out: Outcome<()>)
      modifies this
      ensures Implements(out, RexLedger.CloseRows(old(Snapshot()), owner))
    {
      hide RexLedger.UpdateRexAccount;
      var _ := UpdateRexAccount(owner, 0);
      var noCpuLoans := RexLedger.NoLoansOf(cpuLoans, owner);
      var noNetLoans := RexLedger.NoLoansOf(netLoans, owner);
      var noFund := owner in funds && funds[owner] == 0;
      if noCpuLoans && noNetLoans && noFund {
        funds := funds - {owner};
      }
      if owner in balances {
        var allowed := balances[owner].rex == 0;
        :- Check(allowed);
        balances := balances - {owner};
      }
      return Ok(());
    }

    method DistributeViaRex(from: Name, amount: int, core: bool) returns (out: Outcome<()>)
      modifies this
      ensures Implements(out, RexLedger.DistributeViaRex(old(Snapshot()), from, amount, core))
    {
      if core || !initialized || pool.rex <= 0 {
        out := ChannelToRex(from, amount, false);
      } else {
        // the transfer is of another token, which is not this ledger's
        pool := pool.(unlent := pool.unlent + amount, lendable := pool.lendable + amount);
        :- Check(from != REX_ACCOUNT && 0 < amount);
        return Ok(());
      }
    }

    method ChannelNamebid(highestBid: int) returns (out: Outcome<()>)
      modifies this
      ensures Implements(out, Ok(RexLedger.ChannelNamebid(old(Snapshot()), highestBid)))
    {
      if initialized && pool.rex > 0 {
        pool := pool.(namebid := pool.namebid + highestBid);
      }
      return Ok(());
    }

    // ---- the actions of delegate_bandwidth.cpp

    method ChangeDelegation(from: Name, receiver: Name, deltaNet: int, deltaCpu: int) returns (out: Outcome<()>)
      modifies `delegations
      ensures Implements(out, Bandwidth.ChangeDelegation(old(Snapshot()), from, receiver, deltaNet, deltaCpu))
    {
      var key := (from, receiver);
      if key !in delegations {
        delegations := delegations[key := Delegation(deltaNet, deltaCpu)];
      } else {
        delegations := delegations[key := Delegation(delegations[key].net + deltaNet, delegations[key].cpu + deltaCpu)];
      }
      var row := delegations[key];
      :- Check(0 <= row.net && 0 <= row.cpu);
      if row.net == 0 && row.cpu == 0 {
        delegations := delegations - {key};
      }
      assert delegations == WithDelegation(old(delegations), key, row);
      return Ok(());
    }

    method ChangeTotals(receiver: Name, deltaNet: int, deltaCpu: int) returns (out: Outcome<()>)
      modifies `totals
      ensures Implements(out, Bandwidth.ChangeTotals(old(Snapshot()), receiver, deltaNet, deltaCpu))
    {
      if receiver !in totals {
        totals := totals[receiver := Resources(deltaNet, deltaCpu, 0)];
      } else {
        var was := totals[receiver];
        totals := totals[receiver := was.(net := was.net + deltaNet, cpu := was.cpu + deltaCpu)];
      }
      var row := totals[receiver];
      :- Expected(0 <= row.net && 0 <= row.cpu, NegativeTotals);
      if row.net == 0 && row.cpu == 0 && row.ram == 0 {
        totals := totals - {receiver};
      }
      assert totals == WithResources(old(Snapshot()), receiver, row).totals;
      return Ok(());
    }

    /** The refund row, with the stake change left to be paid for. */
    method ChangeRefund(from: Name, deltaNet: int, deltaCpu: int) returns (out: Outcome<int>)
      modifies `refunds
      ensures out.Ok? ==> Bandwidth.ChangeRefund(old(Snapshot()), from, deltaNet, deltaCpu) == Ok((Snapshot(), out.value))
      ensures !out.Ok? ==> SameFailure(out, Bandwidth.ChangeRefund(old(Snapshot()), from, deltaNet, deltaCpu))
    {
      var netBalance, cpuBalance := deltaNet, deltaCpu;
      if from in refunds {
        var r := refunds[from];
        if netBalance < 0 || cpuBalance < 0 {
          r := r.(time := now / 1000000);
        }
        r := r.(net := r.net - netBalance);
        if r.net < 0 {
          netBalance := -r.net;
          r := r.(net := 0);
        } else {
          netBalance := 0;
        }
        r := r.(cpu := r.cpu - cpuBalance);
        if r.cpu < 0 {
          cpuBalance := -r.cpu;
          r := r.(cpu := 0);
        } else {
          cpuBalance := 0;
        }
        if r.net == 0 && r.cpu == 0 {
          refunds := refunds - {from};
        } else {
          refunds := refunds[from := r];
        }
      } else if netBalance < 0 || cpuBalance < 0 {
        var r := Refund(now / 1000000, 0, 0);
        if netBalance < 0 {
          r := r.(net := -netBalance);
          netBalance := 0;
        }
        if cpuBalance < 0 {
          r := r.(cpu := -cpuBalance);
          cpuBalance := 0;
        }
        refunds := refunds[from := r];
      }
      return Ok(netBalance + cpuBalance);
    }

    method ChangeBandwidth(source: Name, receiver: Name, deltaNet: int, deltaCpu: int, transfer: bool) returns (out: Outcome<()>)
      modifies this
      ensures Implements(out, Bandwidth.ChangeBandwidth(old(Snapshot()), source, receiver, deltaNet, deltaCpu, transfer))
    {
      hide Bandwidth.ChangeDelegation, Bandwidth.ChangeTotals, Bandwidth.ChangeRefund, Transfer;
      :- Check(deltaNet != 0 || deltaCpu != 0);
      :- Check(Bandwidth.Abs(deltaNet + deltaCpu) >= Bandwidth.Abs(deltaNet)
               && Bandwidth.Abs(deltaNet + deltaCpu) >= Bandwidth.Abs(deltaCpu));
      var from := if transfer then receiver else source;
      var _ :- ChangeDelegation(from, receiver, deltaNet, deltaCpu);
      var _ :- ChangeTotals(receiver, deltaNet, deltaCpu);
      if source != STAKE_ACCOUNT {
        var owed := deltaNet + deltaCpu;
        var toSelf := !transfer && from == receiver;
        if toSelf || owed < 0 {
          owed :- ChangeRefund(from, deltaNet, deltaCpu);
        }
        if 0 < owed {
          out := TransferTokens(source, STAKE_ACCOUNT, owed);
          return out;
        }
      }
      return Ok(());
    }

    method DelegateBandwidth(from: Name, receiver: Name, net: int, cpu: int, transfer: bool) returns (out: Outcome<()>)
      modifies this
      ensures Implements(out, Bandwidth.DelegateBandwidth(old(Snapshot()), from, receiver, net, cpu, transfer))
    {
      hide Bandwidth.ChangeBandwidth;
      :- Check(0 <= cpu && 0 <= net && 0 < net + cpu);
      :- Check(!transfer || from != receiver);
      out := ChangeBandwidth(from, receiver, net, cpu, transfer);
    }

    method UndelegateBandwidth(from: Name, receiver: Name, net: int, cpu: int) returns (out: Outcome<()>)
      modifies this
      ensures Implements(out, Bandwidth.UndelegateBandwidth(old(Snapshot()), from, receiver, net, cpu))
    {
      hide Bandwidth.ChangeBandwidth;
      :- Check(0 <= cpu && 0 <= net && 0 < net + cpu);
      out := ChangeBandwidth(from, receiver, -net, -cpu, false);
    }

    method ClaimRefund(owner: Name) returns (out: Outcome<()>)
      modifies this
      ensures Implements(out, Bandwidth.ClaimRefund(old(Snapshot()), owner))
    {
      var allowed := owner in refunds;
      :- Check(allowed);
      :- Check(refunds[owner].time + REFUND_DELAY <= now / 1000000);
      var _ :- TransferTokens(STAKE_ACCOUNT, owner, refunds[owner].net + refunds[owner].cpu);
      refunds := refunds - {owner};
      return Ok(());
    }

    // ---- pushing actions

    predicate Trades(a: SystemActions.Action) {
      a.Deposit? || a.Withdraw? || a.BuyRex? || a.UnstakeToRex? || a.SellRex? || a.CancelRexOrder? || a.Rent?
      || a.FundLoan? || a.DefundLoan?
    }

    predicate Maintains(a: SystemActions.Action) {
      a.UpdateRex? || a.SetRex? || a.RexExec? || a.Consolidate? || a.MoveToSavings? || a.MoveFromSavings? || a.CloseRex?
      || a.DistributeViaRex?
    }

    method DispatchTrade(a: SystemActions.Action) returns (out: Outcome<()>)
      requires Trades(a)
      modifies this
      ensures Implements(out, SystemActions.Step(old(Snapshot()), a))
    {
      hide RexLedger.Deposit, RexLedger.Withdraw, RexLedger.BuyRex, RexLedger.UnstakeToRex, RexLedger.SellRex,
        RexLedger.CancelRexOrder, RexLedger.Rent, RexLedger.FundLoan, RexLedger.DefundLoan, Implements;
      match a
      case Deposit(owner, amount) => out := Deposit(owner, amount);
      case Withdraw(owner, amount) => out := Withdraw(owner, amount);
      case BuyRex(from, amount) => out := BuyRex(from, amount);
      case UnstakeToRex(owner, receiver, fromNet, fromCpu) => out := UnstakeToRex(owner, receiver, fromNet, fromCpu);
      case SellRex(from, rex) => out := SellRex(from, rex);
      case CancelRexOrder(owner) => out := CancelRexOrder(owner);
      case Rent(res, from, receiver, payment, fund) => out := Rent(res, from, receiver, payment, fund);
      case FundLoan(res, from, loanNum, payment) => out := FundLoan(res, from, loanNum, payment);
      case DefundLoan(res, from, loanNum, amount) => out := DefundLoan(res, from, loanNum, amount);
    }

    method DispatchMaintenance(a: SystemActions.Action) returns (out: Outcome<()>)
      requires Maintains(a)
      modifies this
      ensures Implements(out, SystemActions.Step(old(Snapshot()), a))
    {
      hide RexLedger.UpdateRex, RexLedger.SetRex, RexLedger.RunRex, RexLedger.ConsolidateRex, RexLedger.MoveRexToSavings,
        RexLedger.MoveRexFromSavings, RexLedger.CloseRex, RexLedger.DistributeViaRex, Implements;
      match a
      case UpdateRex(owner) => out := UpdateRex(owner);
      case SetRex(balance) => out := SetRex(balance);
      case RexExec(max) => out := RunRex(max);
      case Consolidate(owner) => out := ConsolidateRex(owner);
      case MoveToSavings(owner, rex) => out := MoveRexToSavings(owner, rex);
      case MoveFromSavings(owner, rex) => out := MoveRexFromSavings(owner, rex);
      case CloseRex(owner) => out := CloseRex(owner);
      case DistributeViaRex(from, amount, core) => out := DistributeViaRex(from, amount, core);
    }

    method Dispatch(a: SystemActions.Action) returns (out: Outcome<()>)
      modifies this
      ensures Implements(out, SystemActions.Step(old(Snapshot()), a))
    {
      if Trades(a) {
        out := DispatchTrade(a);
      } else if Maintains(a) {
        out := DispatchMaintenance(a);
      } else {
        out := DispatchOther(a);
      }
    }

    method DispatchOther(a: SystemActions.Action) returns (out: Outcome<()>)
      requires !Trades(a) && !Maintains(a)
      modifies this
      ensures Implements(out, SystemActions.Step(old(Snapshot()), a))
    {
      hide Bandwidth.DelegateBandwidth, Bandwidth.UndelegateBandwidth, Bandwidth.ClaimRefund, RexLedger.ChannelNamebid,
        SystemActions.OpenAccount, SystemActions.ChangeRam, SystemActions.Give, Implements;
      match a
      case DelegateBandwidth(from, receiver, net, cpu, transfer) =>
        out := DelegateBandwidth(from, receiver, net, cpu, transfer);
      case UndelegateBandwidth(from, receiver, net, cpu) => out := UndelegateBandwidth(from, receiver, net, cpu);
      case ClaimRefund(owner) => out := ClaimRefund(owner);
      case CloseNameAuction(highestBid) => out := ChannelNamebid(highestBid);
      case NewAccount(owner) => out := OpenAccount(owner);
      case SetRam(owner, ram) => out := ChangeRam(owner, ram);
      case PlainTransfer(from, to, amount) => out := Give(from, to, amount);
      case Wait(microseconds) => out := Wait(microseconds);
    }

    // ---- the rest of the chain

    method OpenAccount(owner: Name) returns (out: Outcome<()>)
      modifies this
      ensures Implements(out, SystemActions.OpenAccount(old(Snapshot()), owner))
    {
      var allowed := owner !in totals;
      :- Check(allowed);
      totals := totals[owner := Resources(0, 0, 0)];
      return Ok(());
    }

    method ChangeRam(owner: Name, ram: int) returns (out: Outcome<()>)
      modifies this
      ensures Implements(out, SystemActions.ChangeRam(old(Snapshot()), owner, ram))
    {
      totals := totals[owner := ResourcesOf(totals, owner).(ram := ram)];
      return Ok(());
    }

    method Give(from: Name, to: Name, amount: int) returns (out: Outcome<()>)
      modifies this
      ensures Implements(out, SystemActions.Give(old(Snapshot()), from, to, amount))
    {
      hide Transfer;
      var _ :- TransferTokens(from, to, amount);
      if to == REX_ACCOUNT {
        rexGifts := rexGifts + amount;
      } else if to == STAKE_ACCOUNT {
        stakeGifts := stakeGifts + amount;
      }
      return Ok(());
    }

    method Wait(microseconds: nat) returns (out: Outcome<()>)
      modifies this
      ensures Implements(out, Ok(old(Snapshot()).(now := old(now) + microseconds)))
    {
      now := now + microseconds;
      return Ok(());
    }

    /**
     * One action as a transaction: it takes effect or, when it fails, leaves every table as it was. Pushed by an
     * admissible caller while all the books are right, it leaves them right and fails only by being refused.
     */
    method Push(a: SystemActions.Action) returns (out: Outcome<()>)
      modifies this
      ensures Snapshot() == SystemActions.After(old(Snapshot()), a)
      ensures SystemBooks.Invariant(old(Snapshot())) && SystemActions.Admissible(old(Snapshot()), a) ==>
        SystemBooks.Invariant(Snapshot()) && !out.Broken?
    {
      hide SystemActions.Step, SystemActions.Admissible, SystemBooks.Books;
      var saved := Snapshot();
      out := Dispatch(a);
      if !out.Ok? {
        Restore(saved);
      }
      if SystemBooks.Invariant(saved) && SystemActions.Admissible(saved, a) {
        SystemSafety.StepSafe(saved, a);
      }
    }

    method Restore(s: State)
      modifies this
      ensures Snapshot() == s
    {
      now, initialized, rexGifts, stakeGifts := s.now, s.initialized, s.rexGifts, s.stakeGifts;
      RestoreRex(s);
      RestoreStakes(s);
      SameTables(s, Snapshot());
    }

    method RestoreRex(s: State)
      modifies `pool, `funds, `balances, `cpuLoans, `netLoans, `orders
      ensures pool == s.pool && funds == s.funds && balances == s.balances
      ensures cpuLoans == s.cpuLoans && netLoans == s.netLoans && orders == s.orders
    {
      pool, funds, balances := s.pool, s.funds, s.balances;
      cpuLoans, netLoans, orders := s.cpuLoans, s.netLoans, s.orders;
    }

    method RestoreStakes(s: State)
      modifies `delegations, `totals, `refunds, `tokens
      ensures delegations == s.delegations && totals == s.totals && refunds == s.refunds && tokens == s.tokens
    {
      delegations, totals, refunds, tokens := s.delegations, s.totals, s.refunds, s.tokens;
    }
  }

  lemma SameTables(s: State, t: State)
    requires s.now == t.now && s.initialized == t.initialized && s.rexGifts == t.rexGifts && s.stakeGifts == t.stakeGifts
    requires s.pool == t.pool && s.funds == t.funds && s.balances == t.balances
    requires s.cpuLoans == t.cpuLoans && s.netLoans == t.netLoans && s.orders == t.orders
    requires s.delegations == t.delegations && s.totals == t.totals && s.refunds == t.refunds && s.tokens == t.tokens
    ensures s == t
  {
  }

  lemma LeastUnique(keys: set<(int, int)>, a: (int, int))
    requires a in keys && forall k :: k in keys ==> Before(a, k)
    ensures keys != {} && a == Least(keys)
  {
    assert Before(Least(keys), a);
  }

  /** Filling an order changes none of those after it. */
  lemma SuccessorsStay(s: State, t: State, owner: Name, current: (int, int))
    requires owner in s.orders && current == (s.orders[owner].time, owner)
    requires RexLedger.FillQueued(s, owner) == Ok(t)
    ensures OpenAfter(t.orders, current) == OpenAfter(s.orders, current)
  {
    hide RexPool.FillOrder;
    assert forall n :: n != owner ==> (n in t.orders <==> n in s.orders);
    assert forall n :: n != owner && n in s.orders ==> t.orders[n] == s.orders[n];
    assert forall k :: k in OpenAfter(t.orders, current) <==> k in OpenAfter(s.orders, current);
  }
}
