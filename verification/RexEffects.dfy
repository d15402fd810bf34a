/** What each REX action does, row by row and in numbers. */
module RexEffects {
  import opened ExchangeState
  import opened Outcomes
  import opened RexMaturities
  import opened RexPool
  import opened SystemTables
  import opened RexLedger
  import opened SystemBooks
  import opened RexInvariant
  import opened RexActionsKept
  import opened BandwidthEffects

  // ---- funds, loans and orders

  /** Only the fund of this owner changes, and by this much. */
  ghost predicate FundChange(s: State, t: State, owner: Name, change: int) {
    forall n :: AmountOf(t.funds, n) == AmountOf(s.funds, n) + if n == owner then change else 0
  }

  /** No loan differs but number k for this resource. */
  ghost predicate OtherLoans(s: State, t: State, res: Resource, k: int) {
    forall r, j :: r != res || j != k ==>
      (j in LoansOf(t, r) <==> j in LoansOf(s, r)) && (j in LoansOf(t, r) ==> LoansOf(t, r)[j] == LoansOf(s, r)[j])
  }

  /** No sell order differs but that of n. */
  ghost predicate OtherOrders(s: State, t: State, n: Name) {
    forall m :: m != n ==> (m in t.orders <==> m in s.orders) && (m in t.orders ==> t.orders[m] == s.orders[m])
  }

  /** No balance row differs but that of n. */
  ghost predicate OtherRows(s: State, t: State, n: Name) {
    forall m :: m != n ==> (m in t.balances <==> m in s.balances) && (m in t.balances ==> t.balances[m] == s.balances[m])
  }

  lemma FromFundExactly(s: State, owner: Name, amount: int)
    ensures TransferFromFund(s, owner, amount).Ok? <==> 0 < amount <= AmountOf(s.funds, owner)
    ensures TransferFromFund(s, owner, amount).Ok? ==>
      var t := TransferFromFund(s, owner, amount).value; t == s.(funds := t.funds) && FundChange(s, t, owner, -amount)
  {
  }

  lemma ToFundExactly(s: State, owner: Name, amount: int)
    ensures TransferToFund(s, owner, amount).Ok? <==> 0 < amount
    ensures TransferToFund(s, owner, amount).Ok? ==>
      var t := TransferToFund(s, owner, amount).value; t == s.(funds := t.funds) && FundChange(s, t, owner, amount)
  {
  }

  lemma SameFunds(s: State, a: State, t: State, owner: Name, change: int)
    requires FundChange(a, t, owner, change) && a.funds == s.funds
    ensures FundChange(s, t, owner, change)
  {
  }

  lemma LoanRow(s: State, res: Resource, k: int, loan: Loan)
    ensures var t := WithLoans(s, res, LoansOf(s, res)[k := loan]);
      && t == s.(cpuLoans := t.cpuLoans, netLoans := t.netLoans)
      && OtherLoans(s, t, res, k) && k in LoansOf(t, res) && LoansOf(t, res)[k] == loan
  {
  }

  lemma SameLoans(s: State, a: State, t: State, res: Resource, k: int)
    requires OtherLoans(s, a, res, k) && t.cpuLoans == a.cpuLoans && t.netLoans == a.netLoans
    ensures OtherLoans(s, t, res, k) && LoansOf(t, res) == LoansOf(a, res)
  {
  }

  /** A deposit moves tokens of the owner into its fund. */
  lemma DepositExactly(s: State, owner: Name, amount: int)
    ensures Deposit(s, owner, amount).Ok? <==> owner != REX_ACCOUNT && 0 < amount <= AmountOf(s.tokens, owner)
    ensures Deposit(s, owner, amount).Ok? ==>
      var t := Deposit(s, owner, amount).value;
      && t == s.(funds := t.funds, tokens := t.tokens) && FundChange(s, t, owner, amount)
      && AmountOf(t.tokens, owner) == AmountOf(s.tokens, owner) - amount
  {
    hide Transfer, TransferToFund, FundChange;
    TransferExactly(s, owner, REX_ACCOUNT, amount);
    if Transfer(s, owner, REX_ACCOUNT, amount).Ok? {
      var a := Transfer(s, owner, REX_ACCOUNT, amount).value;
      ToFundExactly(a, owner, amount);
      SameFunds(s, a, TransferToFund(a, owner, amount).value, owner, amount);
    }
  }

  /** The loan is the caller's own and has not expired. */
  predicate OwnLoan(s: State, res: Resource, from: Name, k: int) {
    k in LoansOf(s, res) && LoansOf(s, res)[k].from == from && s.now < LoansOf(s, res)[k].expiration
  }

  /** Only the creator of a loan that runs can take tokens back out of it, and no more than its balance. */
  lemma DefundLoanExactly(s: State, res: Resource, from: Name, k: int, amount: int)
    ensures DefundLoan(s, res, from, k, amount).Ok? <==>
      OwnLoan(s, res, from, k) && 0 < amount <= LoansOf(s, res)[k].balance
    ensures DefundLoan(s, res, from, k, amount).Ok? ==>
      var t := DefundLoan(s, res, from, k, amount).value;
      && t == s.(funds := t.funds, cpuLoans := t.cpuLoans, netLoans := t.netLoans)
      && FundChange(s, t, from, amount) && OtherLoans(s, t, res, k) && k in LoansOf(t, res)
      && LoansOf(t, res)[k] == LoansOf(s, res)[k].(balance := LoansOf(s, res)[k].balance - amount)
  {
    hide TransferToFund, FundChange, OtherLoans, LoansOf, WithLoans;
    if k in LoansOf(s, res) {
      var loan := LoansOf(s, res)[k];
      LoanRow(s, res, k, loan.(balance := loan.balance - amount));
      var a := WithLoans(s, res, LoansOf(s, res)[k := loan.(balance := loan.balance - amount)]);
      ToFundExactly(a, from, amount);
      if DefundLoan(s, res, from, k, amount).Ok? {
        var t := TransferToFund(a, from, amount).value;
        SameFunds(s, a, t, from, amount);
        SameLoans(s, a, t, res, k);
      }
    }
  }

  /** Only the creator of a loan that runs can add to it, out of its fund. */
  lemma FundLoanExactly(s: State, res: Resource, from: Name, k: int, payment: int)
    ensures FundLoan(s, res, from, k, payment).Ok? <==>
      OwnLoan(s, res, from, k) && 0 < payment <= AmountOf(s.funds, from)
    ensures FundLoan(s, res, from, k, payment).Ok? ==>
      var t := FundLoan(s, res, from, k, payment).value;
      && t == s.(funds := t.funds, cpuLoans := t.cpuLoans, netLoans := t.netLoans)
      && FundChange(s, t, from, -payment) && OtherLoans(s, t, res, k) && k in LoansOf(t, res)
      && LoansOf(t, res)[k] == LoansOf(s, res)[k].(balance := LoansOf(s, res)[k].balance + payment)
  {
    hide TransferFromFund, FundChange, OtherLoans;
    FromFundExactly(s, from, payment);
    if FundLoan(s, res, from, k, payment).Ok? {
      var a := TransferFromFund(s, from, payment).value;
      var loan := LoansOf(s, res)[k];
      LoanRow(a, res, k, loan.(balance := loan.balance + payment));
      var t := WithLoans(a, res, LoansOf(a, res)[k := loan.(balance := loan.balance + payment)]);
      SameFundsAfter(s, a, t, from, -payment);
      LoansFrom(s, a, t, res, k);
    }
  }

  lemma SameFundsAfter(s: State, a: State, t: State, owner: Name, change: int)
    requires FundChange(s, a, owner, change) && t.funds == a.funds
    ensures FundChange(s, t, owner, change)
  {
  }

  lemma LoansFrom(s: State, a: State, t: State, res: Resource, k: int)
    requires OtherLoans(a, t, res, k) && a.cpuLoans == s.cpuLoans && a.netLoans == s.netLoans
    ensures OtherLoans(s, t, res, k)
  {
  }

  // ---- renting

  lemma RentsUnique(p: Pool, payment: int, a: int, b: int)
    requires 0 < p.rent + payment && Rents(p, payment, a) && Rents(p, payment, b)
    ensures a == b
  {
    if a < b { Products.MulLe(a + 1, b, p.rent + payment); }
    if b < a { Products.MulLe(b + 1, a, p.rent + payment); }
  }

  /** The exchange formula gives what the payment rents. */
  lemma RentedIs(p: Pool, payment: int, rented: int)
    requires Balanced(p) && 0 < payment && Rents(p, payment, rented)
    ensures BancorOutput(p.rent, p.unlent, payment) == Ok(rented) && rented <= p.unlent
  {
    hide BancorOutput;
    BancorFloor(p.rent, p.unlent, payment);
    RentsUnique(p, payment, BancorOutput(p.rent, p.unlent, payment).value, rented);
  }

  /** `amount` of this resource is entered for the account, and nothing else. */
  ghost predicate EntitlesTo(s: State, t: State, receiver: Name, res: Resource, amount: int) {
    if res.Cpu? then Entitles(s, t, receiver, 0, amount) else Entitles(s, t, receiver, amount, 0)
  }

  lemma LimitExactly(s: State, receiver: Name, res: Resource, amount: int)
    requires UpdateLimit(s, receiver, res, amount).Ok?
    ensures var t := UpdateLimit(s, receiver, res, amount).value;
      t == s.(totals := t.totals) && EntitlesTo(s, t, receiver, res, amount)
  {
    hide UpdateResourceLimits, Entitles;
    if res.Cpu? {
      LimitsExactly(s, receiver, 0, amount);
    } else {
      LimitsExactly(s, receiver, amount, 0);
    }
  }

  lemma LimitsExactly(s: State, receiver: Name, net: int, cpu: int)
    requires UpdateResourceLimits(s, receiver, net, cpu).Ok?
    ensures var t := UpdateResourceLimits(s, receiver, net, cpu).value;
      t == s.(totals := t.totals) && Entitles(s, t, receiver, net, cpu)
  {
    hide ResourcesOf, WithResources;
    if net == 0 && cpu == 0 {
    } else {
      var row := ResourcesOf(s.totals, receiver);
      RowEntered(s, receiver, Resources(row.net + net, row.cpu + cpu, row.ram));
    }
  }

  lemma RowEntered(s: State, receiver: Name, row: Resources)
    ensures var t := WithResources(s, receiver, row);
      && t == s.(totals := t.totals)
      && forall n :: ResourcesOf(t.totals, n) == if n == receiver then row else ResourcesOf(s.totals, n)
  {
  }

  /**
   * With the payment and the fund taken, a loan is opened exactly when it rents more than it pays. Its stake leaves the
   * unlent tokens and its payment enters the rent; it runs for thirty days under a number of its own.
   */
  lemma OpenLoanExactly(s: State, res: Resource, from: Name, receiver: Name, payment: int, fund: int, rented: int)
    requires Books(s, payment + fund, 0, Delta(0, 0, 0)) && LoansAvailable(s) && 0 < payment && 0 <= fund
    requires Rents(s.pool, payment, rented)
    ensures OpenLoan(s, res, from, receiver, payment, fund).Ok? <==> payment < rented
    ensures OpenLoan(s, res, from, receiver, payment, fund).Ok? ==>
      var t := OpenLoan(s, res, from, receiver, payment, fund).value;
      LoanOpened(s, t, res, s.pool.loanNum + 1, Loan(from, receiver, payment, fund, rented, s.now + 2592000000000))
  {
    hide Books, Balanced, Kept, AddLoan, BancorOutput, UpdateLimit, OtherLoans, NoOpenOrders, EntitlesTo, Rents;
    PoolIsBalanced(s, payment + fund, 0, Delta(0, 0, 0));
    RentedIs(s.pool, payment, rented);
    OpenLoanKeeps(s, res, from, receiver, payment, fund);
    if payment < rented {
      FreshNumber(s, res, payment + fund);
      OpenedRow(s, res, from, receiver, payment, fund, rented);
    }
  }

  /** Everything a new loan has changed. */
  ghost predicate LoanOpened(s: State, t: State, res: Resource, k: int, loan: Loan) {
    && t == s.(pool := t.pool, cpuLoans := t.cpuLoans, netLoans := t.netLoans, totals := t.totals)
    && OtherLoans(s, t, res, k) && k !in LoansOf(s, res) && k in LoansOf(t, res) && LoansOf(t, res)[k] == loan
    && t.pool == s.pool.(rent := s.pool.rent + loan.payment, unlent := s.pool.unlent - loan.staked + loan.payment,
                         lent := s.pool.lent + loan.staked, lendable := t.pool.lendable, loanNum := k)
    && EntitlesTo(s, t, loan.receiver, res, loan.staked)
  }

  lemma OpenedRow(s: State, res: Resource, from: Name, receiver: Name, payment: int, fund: int, rented: int)
    requires BancorOutput(s.pool.rent, s.pool.unlent, payment) == Ok(rented) && payment < rented
    requires s.pool.loanNum + 1 !in LoansOf(s, res)
    requires !OpenLoan(s, res, from, receiver, payment, fund).Broken?
    ensures OpenLoan(s, res, from, receiver, payment, fund).Ok?
    ensures LoanOpened(s, OpenLoan(s, res, from, receiver, payment, fund).value, res, s.pool.loanNum + 1,
                       Loan(from, receiver, payment, fund, rented, s.now + 2592000000000))
  {
    hide BancorOutput, OtherLoans, UpdateLimit, Entitles;
    var k := s.pool.loanNum + 1;
    var pool := AddLoan(s.pool, payment, rented, true);
    var loan := Loan(from, receiver, payment, fund, rented, s.now + 2592000000000);
    var a := s.(pool := pool);
    var b := WithLoans(a, res, LoansOf(a, res)[k := loan]);
    LoanRow(a, res, k, loan);
    NotRefused(b, receiver, res, rented);
    LimitExactly(b, receiver, res, rented);
    var t := UpdateLimit(b, receiver, res, rented).value;
    LoansFrom(s, a, b, res, k);
    SameLoans(s, b, t, res, k);
    EntitledFrom(s, b, t, receiver, res, rented);
  }

  lemma NotRefused(s: State, receiver: Name, res: Resource, amount: int)
    ensures !UpdateLimit(s, receiver, res, amount).Refused?
  {
    hide ResourcesOf;
  }

  lemma EntitledFrom(s: State, b: State, t: State, receiver: Name, res: Resource, amount: int)
    requires EntitlesTo(b, t, receiver, res, amount) && b.totals == s.totals
    ensures EntitlesTo(s, t, receiver, res, amount)
  {
  }

  /**
   * rentcpu and rentnet, after runrex: they go through exactly when loans are available, the payer's fund covers payment
   * and fund together, and the loan rents more than it pays.
   */
  lemma RentExactly(s: State, res: Resource, from: Name, receiver: Name, payment: int, fund: int, rented: int)
    requires Invariant(s) && RunRex(s, 2).Ok?
    requires 0 < payment ==> Rents(RunRex(s, 2).value.pool, payment, rented)
    ensures var run := RunRex(s, 2).value;
      Rent(s, res, from, receiver, payment, fund).Ok? <==>
      LoansAvailable(run) && 0 < payment < rented && 0 <= fund && payment + fund <= AmountOf(run.funds, from)
    ensures Rent(s, res, from, receiver, payment, fund).Ok? ==>
      var run, t := RunRex(s, 2).value, Rent(s, res, from, receiver, payment, fund).value;
      && FundChange(run, t, from, -(payment + fund))
      && LoanOpened(run.(funds := t.funds), t, res, run.pool.loanNum + 1,
                    Loan(from, receiver, payment, fund, rented, run.now + 2592000000000))
  {
    hide Books, Kept, RunRex, TransferFromFund, OpenLoan, LoanOpened, FundChange, NoOpenOrders;
    var run := RunRex(s, 2).value;
    RunRexKeeps(s, 2);
    KeptHasBooks(s, run, 0, 0, Delta(0, 0, 0));
    FromFundExactly(run, from, payment + fund);
    if LoansAvailable(run) && 0 < payment && 0 <= fund && TransferFromFund(run, from, payment + fund).Ok? {
      var a := TransferFromFund(run, from, payment + fund).value;
      FromFundKeeps(run, from, payment + fund, 0, 0, Delta(0, 0, 0));
      KeptHasBooks(run, a, payment + fund, 0, Delta(0, 0, 0));
      FundedAvailable(run, from, payment + fund);
      OpenLoanExactly(a, res, from, receiver, payment, fund, rented);
      if payment < rented {
        var t := OpenLoan(a, res, from, receiver, payment, fund).value;
        OpenedFunds(a, t, res, a.pool.loanNum + 1, Loan(from, receiver, payment, fund, rented, a.now + 2592000000000));
        SameFundsAfter(run, a, t, from, -(payment + fund));
      }
    }
  }

  lemma OpenedFunds(s: State, t: State, res: Resource, k: int, loan: Loan)
    requires LoanOpened(s, t, res, k, loan)
    ensures t.funds == s.funds
  {
    hide OtherLoans, EntitlesTo;
  }

  // ---- expired loans

  lemma TakenUnique(p: Pool, staked: int, a: int, b: int)
    requires 0 < p.unlent + staked && RentTaken(p, staked, a) && RentTaken(p, staked, b)
    ensures a == b
  {
    if a < b { Products.MulLe(a + 1, b, p.unlent + staked); }
    if b < a { Products.MulLe(b + 1, a, p.unlent + staked); }
  }

  /** The pool with the stake of an expired loan back in it, and what that is worth in rent out of it. */
  function WithStakeBack(p: Pool, staked: int, taken: int): Pool {
    p.(rent := p.rent - taken, unlent := p.unlent + staked, lent := p.lent - staked)
  }

  lemma RemovedIs(p: Pool, staked: int, taken: int)
    requires Balanced(p) && 0 < staked <= p.lent && RentTaken(p, staked, taken)
    ensures RemoveLoan(p, staked) == Ok(WithStakeBack(p, staked, taken)) && Balanced(WithStakeBack(p, staked, taken))
  {
    hide BancorOutput;
    RemoveLoanBalanced(p, staked);
    BancorFloor(p.unlent, p.rent, staked);
    TakenUnique(p, staked, BancorOutput(p.unlent, p.rent, staked).value, taken);
  }

  /** Everything the renewal of loan k has changed. */
  ghost predicate LoanRenewed(s: State, t: State, res: Resource, k: int, taken: int, rented: int)
    requires k in LoansOf(s, res)
  {
    var loan := LoansOf(s, res)[k];
    var p := WithStakeBack(s.pool, loan.staked, taken);
    && t == s.(pool := t.pool, cpuLoans := t.cpuLoans, netLoans := t.netLoans, totals := t.totals)
    && OtherLoans(s, t, res, k) && k in LoansOf(t, res)
    && LoansOf(t, res)[k]
       == loan.(staked := rented, expiration := loan.expiration + 2592000000000, balance := loan.balance - loan.payment)
    && t.pool == p.(rent := p.rent + loan.payment, unlent := p.unlent - rented + loan.payment, lent := p.lent + rented,
                    lendable := t.pool.lendable)
    && EntitlesTo(s, t, loan.receiver, res, rented - loan.staked)
  }

  /** Everything the end of loan k has changed. */
  ghost predicate LoanClosed(s: State, t: State, res: Resource, k: int, taken: int)
    requires k in LoansOf(s, res)
  {
    var loan := LoansOf(s, res)[k];
    && t == s.(pool := t.pool, cpuLoans := t.cpuLoans, netLoans := t.netLoans, totals := t.totals, funds := t.funds)
    && OtherLoans(s, t, res, k) && k !in LoansOf(t, res)
    && t.pool == WithStakeBack(s.pool, loan.staked, taken)
    && FundChange(s, t, loan.from, loan.balance)
    && EntitlesTo(s, t, loan.receiver, res, -loan.staked)
  }

  /**
   * An expired loan is renewed for thirty days, out of its own balance, exactly when that covers the payment, the payment
   * still rents more than itself and no sell order is open. Otherwise it ends and its creator gets the balance back.
   */
  lemma ProcessExpiredExactly(s: State, res: Resource, k: int, taken: int, rented: int)
    requires Invariant(s) && k in LoansOf(s, res)
    requires RentTaken(s.pool, LoansOf(s, res)[k].staked, taken)
    requires Rents(WithStakeBack(s.pool, LoansOf(s, res)[k].staked, taken), LoansOf(s, res)[k].payment, rented)
    ensures ProcessExpired(s, res, k).Ok?
    ensures var t, loan := ProcessExpired(s, res, k).value, LoansOf(s, res)[k];
      if loan.payment <= loan.balance && loan.payment < rented && NoOpenOrders(s) then LoanRenewed(s, t, res, k, taken, rented)
      else LoanClosed(s, t, res, k, taken)
  {
    hide Books, Balanced, Kept, BancorOutput, RemoveLoan, RenewOrClose, NoOpenOrders, LoanRenewed, LoanClosed, Rents, RentTaken,
      WithStakeBack;
    var loan := LoansOf(s, res)[k];
    LoanFacts(s, res, k, 0);
    RemovedIs(s.pool, loan.staked, taken);
    var p := WithStakeBack(s.pool, loan.staked, taken);
    RentedIs(p, loan.payment, rented);
    ProcessExpiredKeeps(s, res, k);
    BackInPool(s.pool, loan.staked, taken);
    var a := s.(pool := p);
    assert ProcessExpired(s, res, k) == RenewOrClose(a, res, k, rented);
    if loan.payment <= loan.balance && loan.payment < rented && NoOpenOrders(s) {
      RenewedExactly(s, res, k, taken, rented);
    } else {
      ClosedExactly(s, a, res, k, taken, rented);
    }
  }

  lemma BackInPool(p: Pool, staked: int, taken: int)
    ensures WithStakeBack(p, staked, taken).rex == p.rex
  {
  }

  lemma RenewedExactly(s: State, res: Resource, k: int, taken: int, rented: int)
    requires k in LoansOf(s, res) && s.initialized && s.pool.rex > 0 && NoOpenOrders(s)
    requires LoansOf(s, res)[k].payment <= LoansOf(s, res)[k].balance && LoansOf(s, res)[k].payment < rented
    requires var a := s.(pool := WithStakeBack(s.pool, LoansOf(s, res)[k].staked, taken)); !RenewOrClose(a, res, k, rented).Broken?
    ensures var a := s.(pool := WithStakeBack(s.pool, LoansOf(s, res)[k].staked, taken));
      RenewOrClose(a, res, k, rented).Ok? && LoanRenewed(s, RenewOrClose(a, res, k, rented).value, res, k, taken, rented)
  {
    hide UpdateLimit, OtherLoans, NoOpenOrders, Entitles;
    var loan := LoansOf(s, res)[k];
    var a := s.(pool := WithStakeBack(s.pool, loan.staked, taken));
    var q := AddLoan(a.pool, loan.payment, rented, false);
    var renewed := loan.(staked := rented, expiration := loan.expiration + 2592000000000, balance := loan.balance - loan.payment);
    var b := s.(pool := q);
    var c := WithLoans(b, res, LoansOf(b, res)[k := renewed]);
    SameOrders(s, a);
    assert RenewLoan(a, res, k, rented) == c;
    LoanRow(b, res, k, renewed);
    NotRefused(c, loan.receiver, res, rented - loan.staked);
    LimitExactly(c, loan.receiver, res, rented - loan.staked);
    var t := UpdateLimit(c, loan.receiver, res, rented - loan.staked).value;
    LoansFrom(s, b, c, res, k);
    SameLoans(s, c, t, res, k);
    EntitledFrom(s, c, t, loan.receiver, res, rented - loan.staked);
  }

  lemma SameOrders(s: State, a: State)
    requires a.orders == s.orders
    ensures NoOpenOrders(a) <==> NoOpenOrders(s)
  {
  }

  lemma LoanGone(s: State, res: Resource, k: int)
    ensures var t := WithLoans(s, res, LoansOf(s, res) - {k});
      && t == s.(cpuLoans := t.cpuLoans, netLoans := t.netLoans) && OtherLoans(s, t, res, k) && k !in LoansOf(t, res)
  {
  }

  /** The balance of a loan that ends goes to its creator's fund. */
  lemma CloseLoanExactly(s: State, res: Resource, k: int)
    requires k in LoansOf(s, res) && 0 <= LoansOf(s, res)[k].balance
    ensures CloseLoan(s, res, k).Ok?
    ensures var t := CloseLoan(s, res, k).value;
      && t == s.(cpuLoans := t.cpuLoans, netLoans := t.netLoans, funds := t.funds)
      && OtherLoans(s, t, res, k) && k !in LoansOf(t, res)
      && FundChange(s, t, LoansOf(s, res)[k].from, LoansOf(s, res)[k].balance)
  {
    hide TransferToFund, OtherLoans, FundChange, LoansOf, WithLoans;
    var loan := LoansOf(s, res)[k];
    LoanGone(s, res, k);
    var a := WithLoans(s, res, LoansOf(s, res) - {k});
    ToFundExactly(a, loan.from, loan.balance);
    var t := CloseLoan(s, res, k).value;
    SameLoans(s, a, t, res, k);
    if loan.balance > 0 {
      SameFunds(s, a, t, loan.from, loan.balance);
    } else {
      NoFundChange(s, t, loan.from);
    }
  }

  lemma NoFundChange(s: State, t: State, owner: Name)
    requires t.funds == s.funds
    ensures FundChange(s, t, owner, 0)
  {
  }

  lemma ClosedExactly(s: State, a: State, res: Resource, k: int, taken: int, rented: int)
    requires k in LoansOf(s, res) && k in LoansOf(a, res) && 0 <= LoansOf(s, res)[k].balance
    requires !(LoansOf(s, res)[k].payment <= LoansOf(s, res)[k].balance && LoansOf(s, res)[k].payment < rented && NoOpenOrders(s))
    requires a == s.(pool := WithStakeBack(s.pool, LoansOf(s, res)[k].staked, taken)) && !RenewOrClose(a, res, k, rented).Broken?
    ensures RenewOrClose(a, res, k, rented).Ok? && LoanClosed(s, RenewOrClose(a, res, k, rented).value, res, k, taken)
  {
    hide UpdateLimit, OtherLoans, NoOpenOrders, EntitlesTo, CloseLoan, FundChange, WithStakeBack;
    var loan := LoansOf(s, res)[k];
    SameOrders(s, a);
    CloseLoanExactly(a, res, k);
    var b := CloseLoan(a, res, k).value;
    NotRefused(b, loan.receiver, res, -loan.staked);
    LimitExactly(b, loan.receiver, res, -loan.staked);
    var t := UpdateLimit(b, loan.receiver, res, -loan.staked).value;
    LoansFrom(s, a, b, res, k);
    SameLoans(s, b, t, res, k);
    SameFunds(s, a, b, loan.from, loan.balance);
    SameFundsAfter(s, b, t, loan.from, loan.balance);
    EntitledFrom(s, b, t, loan.receiver, res, -loan.staked);
  }

  /** runrex leaves every loan alone that has not expired. */
  lemma {:induction false} UnexpiredStays(s: State, res: Resource, max: nat, r: Resource, j: int)
    requires Invariant(s) && RunLoans(s, res, max).Ok?
    requires j in LoansOf(s, r) && (r == res ==> s.now < LoansOf(s, r)[j].expiration)
    ensures var t := RunLoans(s, res, max).value; j in LoansOf(t, r) && LoansOf(t, r)[j] == LoansOf(s, r)[j]
    decreases max
  {
    hide Invariant, ProcessExpired, Least, LoansOf;
    var index := ByExpiry(LoansOf(s, res));
    if max == 0 || index == {} || Least(index).0 > s.now {
    } else {
      var k := Least(index).1;
      ProcessedOther(s, res, k, r, j);
      UnexpiredStays(ProcessExpired(s, res, k).value, res, max - 1, r, j);
    }
  }

  lemma ProcessedOther(s: State, res: Resource, k: int, r: Resource, j: int)
    requires Invariant(s) && k in LoansOf(s, res) && ProcessExpired(s, res, k).Ok?
    requires j in LoansOf(s, r) && (r != res || j != k)
    ensures var t := ProcessExpired(s, res, k).value;
      Invariant(t) && t.now == s.now && j in LoansOf(t, r) && LoansOf(t, r)[j] == LoansOf(s, r)[j]
  {
    hide Books, Kept, ProcessExpired, RentTaken, Rents, WithStakeBack, LoansOf, EntitlesTo, FundChange, NoOpenOrders;
    var taken, rented := ExpiredPrices(s, res, k);
    ProcessExpiredExactly(s, res, k, taken, rented);
    ProcessExpiredKeeps(s, res, k);
    KeptHasBooks(s, ProcessExpired(s, res, k).value, 0, 0, Delta(0, 0, 0));
  }

  /** The prices the results about an expired loan speak of. */
  lemma ExpiredPrices(s: State, res: Resource, k: int) returns (taken: int, rented: int)
    requires Invariant(s) && k in LoansOf(s, res)
    ensures RentTaken(s.pool, LoansOf(s, res)[k].staked, taken)
    ensures Rents(WithStakeBack(s.pool, LoansOf(s, res)[k].staked, taken), LoansOf(s, res)[k].payment, rented)
  {
    hide Books, BancorOutput, RemoveLoan;
    var loan := LoansOf(s, res)[k];
    LoanFacts(s, res, k, 0);
    RemoveLoanBalanced(s.pool, loan.staked);
    taken := s.pool.rent - RemoveLoan(s.pool, loan.staked).value.rent;
    RemovedIs(s.pool, loan.staked, taken);
    var p := WithStakeBack(s.pool, loan.staked, taken);
    BancorFloor(p.rent, p.unlent, loan.payment);
    rented := BancorOutput(p.rent, p.unlent, loan.payment).value;
  }

  /** Loan k expires before all others, the lower number first among equals. */
  predicate ExpiresFirst(loans: map<int, Loan>, k: int) {
    k in loans &&
    forall j :: j in loans ==> loans[k].expiration < loans[j].expiration || (loans[k].expiration == loans[j].expiration && k <= j)
  }

  /** runrex takes the loan that expires first, if it has expired, and goes on from there. */
  lemma EarliestFirst(s: State, res: Resource, max: nat, k: int)
    requires ExpiresFirst(LoansOf(s, res), k) && max > 0
    ensures s.now < LoansOf(s, res)[k].expiration ==> RunLoans(s, res, max) == Ok(s)
    ensures LoansOf(s, res)[k].expiration <= s.now && ProcessExpired(s, res, k).Ok? ==>
      RunLoans(s, res, max) == RunLoans(ProcessExpired(s, res, k).value, res, max - 1)
  {
    hide ProcessExpired, LoansOf;
    var loans := LoansOf(s, res);
    assert (loans[k].expiration, k) in ByExpiry(loans);
    var least := Least(ByExpiry(loans));
    assert least.1 in loans && least.0 == loans[least.1].expiration;
    assert Before(least, (loans[k].expiration, k));
  }
}
