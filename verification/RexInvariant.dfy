/** Every step of the REX actions keeps the books, never breaks a check, and never lowers the price of REX. */
module RexInvariant {
  import opened ExchangeState
  import opened Outcomes
  import opened TableSums
  import opened RexMaturities
  import opened RexPool
  import opened SystemTables
  import opened RexLedger
  import opened SystemBooks

  /** State t has its books but for the gaps, at the same time as s and with REX no cheaper. */
  ghost predicate Kept(s: State, t: State, rexGap: int, stakeGap: int, d: Delta) {
    Balanced(s.pool) && Balanced(t.pool) && Books(t, rexGap, stakeGap, d) && t.now == s.now && PriceHolds(s.pool, t.pool)
  }

  /** An outcome that is not broken, and keeps the books when it is not refused. */
  ghost predicate Keeps(s: State, out: Outcome<State>, rexGap: int, stakeGap: int, d: Delta) {
    !out.Broken? && (out.Ok? ==> Kept(s, out.value, rexGap, stakeGap, d))
  }

  lemma Then(s: State, mid: State, g: int, h: int, d: Delta, out: Outcome<State>, g': int, h': int, d': Delta)
    requires Kept(s, mid, g, h, d) && Keeps(mid, out, g', h', d')
    ensures Keeps(s, out, g', h', d')
  {
    hide Books, Balanced, PriceHolds;
    if out.Ok? {
      PriceTransitive(s.pool, mid.pool, out.value.pool);
    }
  }

  /** Nothing about the pool changed. */
  lemma SamePool(s: State, t: State, g: int, h: int, d: Delta)
    requires Books(t, g, h, d) && t.pool == s.pool && t.now == s.now
    ensures Kept(s, t, g, h, d)
  {
    hide Sum, TokenBook, OwnerBook, StakeBook, TotalsBook;
  }

  // ---- the token contract and the funds

  lemma TransferKeeps(s: State, from: Name, to: Name, amount: int, g: int, h: int, d: Delta)
    requires Books(s, g, h, d)
    requires from == REX_ACCOUNT ==> amount <= AmountOf(s.tokens, REX_ACCOUNT)
    requires from == STAKE_ACCOUNT ==> amount <= AmountOf(s.tokens, STAKE_ACCOUNT)
    ensures Keeps(s, Transfer(s, from, to, amount),
                  g + (if to == REX_ACCOUNT then amount else 0) - (if from == REX_ACCOUNT then amount else 0),
                  h + (if to == STAKE_ACCOUNT then amount else 0) - (if from == STAKE_ACCOUNT then amount else 0), d)
  {
    hide PoolBook, OwnerBook, TotalsBook, Kept, Liabilities, Staked;
    var out := Transfer(s, from, to, amount);
    if out.Ok? {
      SamePool(s, out.value, g + (if to == REX_ACCOUNT then amount else 0) - (if from == REX_ACCOUNT then amount else 0),
               h + (if to == STAKE_ACCOUNT then amount else 0) - (if from == STAKE_ACCOUNT then amount else 0), d);
    }
  }

  lemma FundKeeps(s: State, owner: Name, v: int, g: int, h: int, d: Delta)
    requires Books(s, g, h, d) && 0 <= v
    ensures Kept(s, s.(funds := s.funds[owner := v]), g + AmountOf(s.funds, owner) - v, h, d)
  {
    hide PoolBook, TokenBook, OwnerBook, StakeBook, TotalsBook, Kept;
    TokenBookFund(AmountOf(s.tokens, REX_ACCOUNT), s.rexGifts, s.funds, s.cpuLoans, s.netLoans, s.pool.lendable, s.orders, g,
                  owner, v);
    SamePool(s, s.(funds := s.funds[owner := v]), g + AmountOf(s.funds, owner) - v, h, d);
  }

  lemma FundNonNegative(s: State, owner: Name, g: int, h: int, d: Delta)
    requires Books(s, g, h, d)
    ensures 0 <= AmountOf(s.funds, owner)
  {
    hide PoolBook, OwnerBook, StakeBook, TotalsBook, Liabilities;
  }

  lemma FromFundKeeps(s: State, owner: Name, amount: int, g: int, h: int, d: Delta)
    requires Books(s, g, h, d)
    ensures Keeps(s, TransferFromFund(s, owner, amount), g + amount, h, d)
  {
    hide Books, Kept;
    if TransferFromFund(s, owner, amount).Ok? {
      FundKeeps(s, owner, s.funds[owner] - amount, g, h, d);
    }
  }

  lemma ToFundKeeps(s: State, owner: Name, amount: int, g: int, h: int, d: Delta)
    requires Books(s, g, h, d)
    ensures Keeps(s, TransferToFund(s, owner, amount), g - amount, h, d)
  {
    hide Books, Kept;
    FundNonNegative(s, owner, g, h, d);
    if TransferToFund(s, owner, amount).Ok? {
      FundKeeps(s, owner, AmountOf(s.funds, owner) + amount, g, h, d);
    }
  }

  // ---- buying REX

  /** The price clause apart, a purchase accounts for its payment and always succeeds. */
  lemma BuyBooks(s: State, owner: Name, payment: int, h: int, d: Delta)
    requires Books(s, payment, h, d) && 0 < payment
    ensures Buy(s, owner, payment).Ok?
    ensures var t := Buy(s, owner, payment).value;
      Books(t, 0, h, d) && t.now == s.now && t.initialized && (s.pool.rex > 0 ==> PriceHolds(s.pool, t.pool))
  {
    hide Sum, PoolBook, TokenBook, OwnerBook, StakeBook, TotalsBook, Balanced, PriceHolds, AddToPool, Credit;
    var q, received := BuyPool(s, payment, h, d);
    BuyRow(s, owner, payment, h, d, q, received);
    BalancedNonNegative(q);
    TokenBookShift(AmountOf(s.tokens, REX_ACCOUNT), s.rexGifts, s.funds, s.cpuLoans, s.netLoans, s.pool.lendable, s.orders,
                   payment, AmountOf(s.tokens, REX_ACCOUNT), s.rexGifts, q.lendable);
  }

  /** The row credited with the REX received. */
  lemma BuyRow(s: State, owner: Name, payment: int, h: int, d: Delta, q: Pool, received: int)
    requires Books(s, payment, h, d) && Balanced(q) && 0 <= received
    requires q.rex == s.pool.rex + received && q.lent == s.pool.lent && q.loanNum == s.pool.loanNum
    ensures var row := if owner in s.balances then s.balances[owner] else Balance(0, 0, []);
      var rows := s.balances[owner := Credit(row, received, s.Seconds())];
      PoolBook(true, q, s.cpuLoans, s.netLoans, rows) && OwnerBook(rows, s.orders, s.Seconds())
  {
    hide Sum, PoolBook, TokenBook, StakeBook, TotalsBook, Balanced, Credit, Sound, Clock;
    var row := if owner in s.balances then s.balances[owner] else Balance(0, 0, []);
    EmptyRowSound(s.Seconds());
    CreditSound(row, received, s.Seconds());
    var credited := Credit(row, received, s.Seconds());
    PoolBookRex(s.initialized, s.pool, s.cpuLoans, s.netLoans, s.balances, q, owner, credited);
    if HasOpenOrder(s.orders, owner) {
      PendingMatured(s.balances, s.orders, s.Seconds(), owner);
    }
    OwnerBookRow(s.balances, s.orders, s.Seconds(), owner, credited);
  }

  lemma PendingMatured(balances: map<Name, Balance>, orders: map<Name, Order>, sec: int, owner: Name)
    requires OwnerBook(balances, orders, sec) && HasOpenOrder(orders, owner)
    ensures owner in balances && 0 < orders[owner].requested <= balances[owner].matured
  {
    hide Sound, Clock;
    assert Covered(balances, orders[owner], owner);
  }

  lemma OwnerBookRow(balances: map<Name, Balance>, orders: map<Name, Order>, sec: int, owner: Name, row: Balance)
    requires OwnerBook(balances, orders, sec) && Sound(row, sec, 0)
    requires HasOpenOrder(orders, owner) ==> 0 < orders[owner].requested <= row.matured
    ensures OwnerBook(balances[owner := row], orders, sec)
  {
    hide Sound, Clock;
    forall n | n in orders && orders[n].isOpen
      ensures Covered(balances[owner := row], orders[n], n)
    {
      assert Covered(balances, orders[n], n);
    }
  }

  lemma BalancedNonNegative(p: Pool)
    requires Balanced(p)
    ensures 0 <= p.lendable && 0 <= p.lent && 0 <= p.unlent && 0 <= p.rent && 0 <= p.rex
  {
  }

  lemma EmptyRowSound(sec: int)
    ensures Sound(Balance(0, 0, []), sec, 0)
  {
  }

  lemma BuyPool(s: State, payment: int, h: int, d: Delta) returns (q: Pool, received: int)
    requires Books(s, payment, h, d) && 0 < payment
    ensures 0 <= s.rexGifts
    ensures AddToPool(s.pool, s.initialized, payment) == Ok((q, received))
    ensures Balanced(q) && 0 <= received && q.rex == s.pool.rex + received && q.rex > 0
    ensures q.lendable == s.pool.lendable + payment && q.lent == s.pool.lent && q.loanNum == s.pool.loanNum
    ensures s.pool.rex > 0 ==> PriceHolds(s.pool, q)
  {
    hide Sum, Liabilities, OwnerBook, StakeBook, TotalsBook, LoansSound, Balanced, AddToPool, NotCheaper;
    AddToPoolBalanced(s.pool, s.initialized, payment);
    AddToPoolPrice(s.pool, s.initialized, payment);
    q, received := AddToPool(s.pool, s.initialized, payment).value.0, AddToPool(s.pool, s.initialized, payment).value.1;
  }

  // ---- claiming filled orders

  lemma UpdateRexAccountKeeps(s: State, owner: Name, proceeds: int, g: int, h: int, d: Delta)
    requires Books(s, g, h, d) && 0 <= proceeds
    ensures Kept(s, UpdateRexAccount(s, owner, proceeds).0, g - proceeds, h, d)
  {
    hide Books, Kept, PriceHolds;
    ClaimKeeps(s, owner, g, h, d);
    var after := s.(orders := WithoutFilled(s.orders, owner));
    var claimed := g + ClaimableOf(s.orders, owner);
    var toFund := proceeds + ClaimableOf(s.orders, owner);
    if toFund > 0 {
      KeptHasBooks(s, after, claimed, h, d);
      FundNonNegative(after, owner, claimed, h, d);
      FundKeeps(after, owner, AmountOf(s.funds, owner) + toFund, claimed, h, d);
      Then(s, after, claimed, h, d, Ok(UpdateRexAccount(s, owner, proceeds).0), g - proceeds, h, d);
    }
  }

  /** A filled order is erased, and its proceeds are there to be claimed. */
  lemma ClaimKeeps(s: State, owner: Name, g: int, h: int, d: Delta)
    requires Books(s, g, h, d)
    ensures 0 <= ClaimableOf(s.orders, owner)
    ensures Kept(s, s.(orders := WithoutFilled(s.orders, owner)), g + ClaimableOf(s.orders, owner), h, d)
  {
    hide Books, Kept;
    if HasFilledOrder(s.orders, owner) {
      EraseClaimed(s, owner, g, h, d);
      SamePool(s, s.(orders := s.orders - {owner}), g + ClaimableOf(s.orders, owner), h, d);
    } else {
      SamePool(s, s, g, h, d);
    }
  }

  /** What update_rex_account leaves alone, and what it returns. */
  lemma UpdateRexAccountFrame(s: State, owner: Name, proceeds: int)
    ensures var (t, pending) := UpdateRexAccount(s, owner, proceeds);
      && t == s.(funds := t.funds, orders := t.orders)
      && (owner in t.orders <==> HasOpenOrder(s.orders, owner))
      && (owner in t.orders ==> t.orders[owner] == s.orders[owner] && pending == t.orders[owner].requested)
      && (owner !in t.orders ==> pending == 0)
  {
  }

  /** The REX in an open order has matured. */
  lemma PendingCovered(s: State, g: int, h: int, d: Delta, owner: Name)
    requires Books(s, g, h, d) && owner in s.balances
    ensures 0 <= s.balances[owner].matured
    ensures HasOpenOrder(s.orders, owner) ==> 0 < s.orders[owner].requested <= s.balances[owner].matured
  {
    hide Sum, PoolBook, TokenBook, StakeBook, TotalsBook;
    if HasOpenOrder(s.orders, owner) {
      assert Covered(s.balances, s.orders[owner], owner);
    }
  }

  lemma EraseClaimed(s: State, owner: Name, g: int, h: int, d: Delta)
    requires Books(s, g, h, d) && owner in s.orders && !s.orders[owner].isOpen
    ensures 0 <= s.orders[owner].proceeds
    ensures Books(s.(orders := s.orders - {owner}), g + s.orders[owner].proceeds, h, d)
  {
    hide Sum, Sound, Clock, PoolBook, TokenBook, StakeBook, TotalsBook;
    UnclaimedNonNegative(s, g, h, d, owner);
    TokenBookEraseOrder(AmountOf(s.tokens, REX_ACCOUNT), s.rexGifts, s.funds, s.cpuLoans, s.netLoans, s.pool.lendable,
                        s.orders, g, owner);
  }

  lemma UnclaimedNonNegative(s: State, g: int, h: int, d: Delta, owner: Name)
    requires Books(s, g, h, d) && owner in s.orders && !s.orders[owner].isOpen
    ensures 0 <= s.orders[owner].proceeds
  {
    hide Liabilities, PoolBook, OwnerBook, StakeBook, TotalsBook;
    assert 0 <= Unclaimed(owner, s.orders[owner]);
  }

  // ---- entering a change of resources

  /** The total after a change that is due is not negative, and an account without a row is due no reduction. */
  lemma EnteredNonNegative(s: State, g: int, h: int, d: Delta)
    requires Books(s, g, h, d)
    ensures 0 <= ResourcesOf(s.totals, d.who).net + d.net && 0 <= ResourcesOf(s.totals, d.who).cpu + d.cpu
  {
    hide Sum, PoolBook, TokenBook, OwnerBook, StakeBook, NetDue, CpuDue;
    DueNonNegative(s.delegations, s.refunds, AmountOf(s.tokens, STAKE_ACCOUNT), s.stakeGifts, h,
                   s.initialized, s.pool, s.cpuLoans, s.netLoans, s.balances, d.who);
    assert TotalsRight(s.totals, s.delegations, s.cpuLoans, s.netLoans, d.who, d);
  }

  /** Any way of writing the changed row enters the change. */
  lemma EnterKeeps(s: State, t: State, g: int, h: int, d: Delta)
    requires Books(s, g, h, d) && t == s.(totals := t.totals)
    requires ResourcesOf(t.totals, d.who).net == ResourcesOf(s.totals, d.who).net + d.net
    requires ResourcesOf(t.totals, d.who).cpu == ResourcesOf(s.totals, d.who).cpu + d.cpu
    requires forall r :: r != d.who ==> SameStake(s.totals, t.totals, r)
    ensures Kept(s, t, g, h, Delta(0, 0, 0))
  {
    hide PoolBook, TokenBook, OwnerBook, StakeBook, TotalsBook, Kept;
    TotalsBookEnter(s.totals, s.delegations, s.cpuLoans, s.netLoans, d, t.totals);
    SamePool(s, t, g, h, Delta(0, 0, 0));
  }

  /** Entering the outstanding change never runs into the checks of update_resource_limits. */
  lemma UpdateLimitsKeeps(s: State, g: int, h: int, d: Delta)
    requires Books(s, g, h, d)
    ensures UpdateResourceLimits(s, d.who, d.net, d.cpu).Ok?
    ensures Kept(s, UpdateResourceLimits(s, d.who, d.net, d.cpu).value, g, h, Delta(0, 0, 0))
    ensures var t := UpdateResourceLimits(s, d.who, d.net, d.cpu).value; t == s.(totals := t.totals)
  {
    hide Books, Kept, UpdateResourceLimits, ResourcesOf, SameStake;
    EnteredNonNegative(s, g, h, d);
    LimitsEntered(s, d.who, d.net, d.cpu);
    EnterKeeps(s, UpdateResourceLimits(s, d.who, d.net, d.cpu).value, g, h, d);
  }

  lemma LimitsEntered(s: State, who: Name, net: int, cpu: int)
    requires 0 <= ResourcesOf(s.totals, who).net + net && 0 <= ResourcesOf(s.totals, who).cpu + cpu
    ensures UpdateResourceLimits(s, who, net, cpu).Ok?
    ensures var t := UpdateResourceLimits(s, who, net, cpu).value;
      && t == s.(totals := t.totals)
      && ResourcesOf(t.totals, who).net == ResourcesOf(s.totals, who).net + net
      && ResourcesOf(t.totals, who).cpu == ResourcesOf(s.totals, who).cpu + cpu
      && forall r :: r != who ==> SameStake(s.totals, t.totals, r)
  {
    hide WithResources;
    var row := ResourcesOf(s.totals, who);
    RowWritten(s, who, Resources(row.net + net, row.cpu + cpu, row.ram));
  }

  lemma RowWritten(s: State, who: Name, row: Resources)
    ensures var t := WithResources(s, who, row);
      && t == s.(totals := t.totals)
      && ResourcesOf(t.totals, who).net == row.net && ResourcesOf(t.totals, who).cpu == row.cpu
      && forall r :: r != who ==> SameStake(s.totals, t.totals, r)
  {
  }

  // ---- loans

  function ChangeFor(res: Resource, who: Name, change: int): Delta {
    if res.Cpu? then Delta(who, 0, change) else Delta(who, change, 0)
  }

  /** The state with the pool q and row k of a loan table written. */
  function LoanWritten(s: State, res: Resource, q: Pool, k: int, loan: Loan): State {
    WithLoans(s.(pool := q), res, LoansOf(s, res)[k := loan])
  }

  /** Writing a loan whose stake came out of the pool's unlent tokens leaves only its resources to be entered. */
  lemma LoanWrittenKeeps(s: State, res: Resource, q: Pool, k: int, loan: Loan, g: int)
    requires Books(s, g, 0, Delta(0, 0, 0)) && Balanced(q) && PriceHolds(s.pool, q) && s.initialized
    requires q.lent - s.pool.lent == loan.staked - Share(LoansOf(s, res), LoanStake, k) && q.rex == s.pool.rex
    requires 0 < loan.payment && 0 <= loan.balance && 0 < loan.staked && k <= q.loanNum && s.pool.loanNum <= q.loanNum
    requires k in LoansOf(s, res) ==> LoansOf(s, res)[k].receiver == loan.receiver
    ensures Kept(s, LoanWritten(s, res, q, k, loan),
                 g + Share(LoansOf(s, res), LoanFund, k) - loan.balance - (q.lendable - s.pool.lendable), 0,
                 ChangeFor(res, loan.receiver, loan.staked - Share(LoansOf(s, res), LoanStake, k)))
  {
    hide Sum, PoolBook, TokenBook, OwnerBook, StakeBook, TotalsBook, Balanced, PriceHolds, Share;
    var loans := LoansOf(s, res);
    var other := if res.Cpu? then s.netLoans else s.cpuLoans;
    LoanWrittenPool(s, res, q, k, loan, g);
    LoanWrittenTokens(s, res, q, k, loan, g);
    TotalsBookLoan(s.totals, s.delegations, s.cpuLoans, s.netLoans, res, k, loan);
    PoolIsBalanced(s, g, 0, Delta(0, 0, 0));
  }

  lemma PoolIsBalanced(s: State, g: int, h: int, d: Delta)
    requires Books(s, g, h, d)
    ensures Balanced(s.pool) && 0 <= s.rexGifts
  {
    hide Sum, Liabilities, OwnerBook, StakeBook, TotalsBook, Balanced;
  }

  lemma LoanWrittenPool(s: State, res: Resource, q: Pool, k: int, loan: Loan, g: int)
    requires Books(s, g, 0, Delta(0, 0, 0)) && Balanced(q) && s.initialized
    requires q.lent - s.pool.lent == loan.staked - Share(LoansOf(s, res), LoanStake, k) && q.rex == s.pool.rex
    requires 0 < loan.payment && 0 <= loan.balance && 0 < loan.staked && k <= q.loanNum && s.pool.loanNum <= q.loanNum
    ensures var t := LoanWritten(s, res, q, k, loan);
      PoolBook(t.initialized, q, t.cpuLoans, t.netLoans, t.balances)
  {
    hide Sum, PoolBook, TokenBook, OwnerBook, StakeBook, TotalsBook, Balanced, Share;
    if res.Cpu? {
      PoolBookLoan(s.initialized, s.pool, s.cpuLoans, s.netLoans, s.balances, q, k, loan);
    } else {
      SwapLoans(s.initialized, s.pool, s.cpuLoans, s.netLoans, s.balances);
      PoolBookLoan(s.initialized, s.pool, s.netLoans, s.cpuLoans, s.balances, q, k, loan);
      SwapLoans(true, q, s.netLoans[k := loan], s.cpuLoans, s.balances);
    }
  }

  lemma LoanWrittenTokens(s: State, res: Resource, q: Pool, k: int, loan: Loan, g: int)
    requires Books(s, g, 0, Delta(0, 0, 0)) && 0 <= loan.balance && Balanced(q)
    ensures var t := LoanWritten(s, res, q, k, loan);
      TokenBook(AmountOf(t.tokens, REX_ACCOUNT), t.rexGifts, t.funds, t.cpuLoans, t.netLoans, q.lendable, t.orders,
                g + Share(LoansOf(s, res), LoanFund, k) - loan.balance - (q.lendable - s.pool.lendable))
  {
    hide Sum, PoolBook, TokenBook, OwnerBook, StakeBook, TotalsBook, Balanced, Share;
    var held, g2 := AmountOf(s.tokens, REX_ACCOUNT), g - (q.lendable - s.pool.lendable);
    BalancedNonNegative(q);
    PoolIsBalanced(s, g, 0, Delta(0, 0, 0));
    TokenBookShift(held, s.rexGifts, s.funds, s.cpuLoans, s.netLoans, s.pool.lendable, s.orders, g,
                   held, s.rexGifts, q.lendable);
    if res.Cpu? {
      TokenBookLoan(held, s.rexGifts, s.funds, s.cpuLoans, s.netLoans, q.lendable, s.orders, g2, k, loan);
    } else {
      TokenBookSwap(held, s.rexGifts, s.funds, s.cpuLoans, s.netLoans, q.lendable, s.orders, g2);
      TokenBookLoan(held, s.rexGifts, s.funds, s.netLoans, s.cpuLoans, q.lendable, s.orders, g2, k, loan);
      TokenBookSwap(held, s.rexGifts, s.funds, s.netLoans[k := loan], s.cpuLoans, q.lendable, s.orders,
                    g2 + Share(s.netLoans, LoanFund, k) - loan.balance);
    }
  }

  /** The state with the pool q and row k of a loan table erased. */
  function LoanErased(s: State, res: Resource, q: Pool, k: int): State {
    WithLoans(s.(pool := q), res, LoansOf(s, res) - {k})
  }

  /** Erasing a loan leaves its balance to be refunded and its resources to be taken back. */
  lemma LoanErasedKeeps(s: State, res: Resource, q: Pool, k: int)
    requires Invariant(s) && Balanced(q) && PriceHolds(s.pool, q) && s.initialized && k in LoansOf(s, res)
    requires q.lent == s.pool.lent - LoansOf(s, res)[k].staked && q.rex == s.pool.rex
    requires q.lendable == s.pool.lendable && q.loanNum == s.pool.loanNum
    ensures var loan := LoansOf(s, res)[k];
      Kept(s, LoanErased(s, res, q, k), loan.balance, 0, ChangeFor(res, loan.receiver, -loan.staked))
  {
    hide Sum, PoolBook, TokenBook, OwnerBook, StakeBook, TotalsBook, Balanced, PriceHolds;
    var held := AmountOf(s.tokens, REX_ACCOUNT);
    PoolIsBalanced(s, 0, 0, Delta(0, 0, 0));
    TotalsBookClose(s.totals, s.delegations, s.cpuLoans, s.netLoans, res, k);
    if res.Cpu? {
      PoolBookClose(s.initialized, s.pool, s.cpuLoans, s.netLoans, s.balances, q, k);
      TokenBookClose(held, s.rexGifts, s.funds, s.cpuLoans, s.netLoans, q.lendable, s.orders, 0, k);
    } else {
      SwapLoans(s.initialized, s.pool, s.cpuLoans, s.netLoans, s.balances);
      PoolBookClose(s.initialized, s.pool, s.netLoans, s.cpuLoans, s.balances, q, k);
      SwapLoans(true, q, s.netLoans - {k}, s.cpuLoans, s.balances);
      TokenBookSwap(held, s.rexGifts, s.funds, s.cpuLoans, s.netLoans, q.lendable, s.orders, 0);
      TokenBookClose(held, s.rexGifts, s.funds, s.netLoans, s.cpuLoans, q.lendable, s.orders, 0, k);
      TokenBookSwap(held, s.rexGifts, s.funds, s.netLoans - {k}, s.cpuLoans, q.lendable, s.orders, s.netLoans[k].balance);
    }
  }

  /** What is known of a loan row. */
  lemma LoanFacts(s: State, res: Resource, k: int, g: int)
    requires Books(s, g, 0, Delta(0, 0, 0)) && k in LoansOf(s, res)
    ensures var loan := LoansOf(s, res)[k];
      && 0 < loan.payment && 0 <= loan.balance && 0 < loan.staked <= s.pool.lent && k <= s.pool.loanNum
    ensures Balanced(s.pool) && s.initialized && s.pool.rex > 0
  {
    hide Sum, TokenBook, OwnerBook, StakeBook, TotalsBook;
    PoolBounds(s.initialized, s.pool, s.cpuLoans, s.netLoans, s.balances, k);
  }

  lemma UpdateLimitKeeps(s: State, res: Resource, who: Name, change: int, g: int)
    requires Books(s, g, 0, ChangeFor(res, who, change))
    ensures UpdateLimit(s, who, res, change).Ok?
    ensures Kept(s, UpdateLimit(s, who, res, change).value, g, 0, Delta(0, 0, 0))
  {
    hide Books, Kept, UpdateResourceLimits;
    UpdateLimitsKeeps(s, g, 0, ChangeFor(res, who, change));
  }

  /** The pool without the expired loan, and what its payment would rent now. */
  lemma ExpiredPool(s: State, res: Resource, k: int) returns (pool: Pool, rented: int)
    requires Invariant(s) && k in LoansOf(s, res)
    ensures var loan := LoansOf(s, res)[k];
      && RemoveLoan(s.pool, loan.staked) == Ok(pool)
      && BancorOutput(pool.rent, pool.unlent, loan.payment) == Ok(rented)
      && pool.lent == s.pool.lent - loan.staked
    ensures Balanced(pool) && PriceHolds(s.pool, pool) && 0 <= rented <= pool.unlent && pool.rex > 0
    ensures pool.lendable == s.pool.lendable && pool.rex == s.pool.rex && pool.loanNum == s.pool.loanNum
  {
    hide Books, PriceHolds, RemoveLoan, BancorOutput;
    var loan := LoansOf(s, res)[k];
    LoanFacts(s, res, k, 0);
    RemoveLoanBalanced(s.pool, loan.staked);
    pool := RemoveLoan(s.pool, loan.staked).value;
    BancorFloor(pool.rent, pool.unlent, loan.payment);
    rented := BancorOutput(pool.rent, pool.unlent, loan.payment).value;
  }

  lemma RenewKeeps(s: State, res: Resource, k: int, pool: Pool, rented: int)
    requires Invariant(s) && k in LoansOf(s, res)
    requires Balanced(pool) && PriceHolds(s.pool, pool) && 0 <= rented <= pool.unlent && pool.rex > 0
    requires pool.lent == s.pool.lent - LoansOf(s, res)[k].staked
    requires pool.lendable == s.pool.lendable && pool.rex == s.pool.rex && pool.loanNum == s.pool.loanNum
    requires LoansOf(s, res)[k].payment <= LoansOf(s, res)[k].balance && LoansOf(s, res)[k].payment < rented
    ensures var loan := LoansOf(s, res)[k];
      var t := LoanWritten(s, res, AddLoan(pool, loan.payment, rented, false), k, Renewed(loan, rented));
      Keeps(s, UpdateLimit(t, loan.receiver, res, rented - loan.staked), 0, 0, Delta(0, 0, 0))
  {
    hide Books, PriceHolds, Balanced, Kept, UpdateLimit, LoanWritten, AddLoan;
    var loan := LoansOf(s, res)[k];
    LoanFacts(s, res, k, 0);
    AddLoanBalanced(pool, loan.payment, rented, false);
    var q := AddLoan(pool, loan.payment, rented, false);
    AddLoanNumber(pool, loan.payment, rented, false);
    PriceTransitive(s.pool, pool, q);
    LoanWrittenKeeps(s, res, q, k, Renewed(loan, rented), 0);
    var t := LoanWritten(s, res, q, k, Renewed(loan, rented));
    KeptHasBooks(s, t, 0, 0, ChangeFor(res, loan.receiver, rented - loan.staked));
    UpdateLimitKeeps(t, res, loan.receiver, rented - loan.staked, 0);
    Then(s, t, 0, 0, ChangeFor(res, loan.receiver, rented - loan.staked),
         UpdateLimit(t, loan.receiver, res, rented - loan.staked), 0, 0, Delta(0, 0, 0));
  }

  lemma KeptHasBooks(s: State, t: State, g: int, h: int, d: Delta)
    requires Kept(s, t, g, h, d)
    ensures Books(t, g, h, d) && t.now == s.now
  {
    hide Books;
  }

  lemma AddLoanNumber(p: Pool, payment: int, rented: int, isNew: bool)
    ensures AddLoan(p, payment, rented, isNew).loanNum == if isNew then p.loanNum + 1 else p.loanNum
  {
  }

  lemma CloseKeeps(s: State, res: Resource, k: int, pool: Pool)
    requires Invariant(s) && k in LoansOf(s, res)
    requires Balanced(pool) && PriceHolds(s.pool, pool)
    requires pool.lent == s.pool.lent - LoansOf(s, res)[k].staked
    requires pool.lendable == s.pool.lendable && pool.rex == s.pool.rex && pool.loanNum == s.pool.loanNum
    ensures var loan := LoansOf(s, res)[k];
      var closed := LoanErased(s, res, pool, k);
      var refunded := if loan.balance > 0 then TransferToFund(closed, loan.from, loan.balance) else Ok(closed);
      refunded.Ok? && Keeps(s, UpdateLimit(refunded.value, loan.receiver, res, -loan.staked), 0, 0, Delta(0, 0, 0))
  {
    hide Books, PriceHolds, Balanced, UpdateLimit, LoanErased, Kept;
    var loan := LoansOf(s, res)[k];
    var d := ChangeFor(res, loan.receiver, -loan.staked);
    LoanFacts(s, res, k, 0);
    LoanErasedKeeps(s, res, pool, k);
    var closed := LoanErased(s, res, pool, k);
    KeptHasBooks(s, closed, loan.balance, 0, d);
    var refunded := if loan.balance > 0 then TransferToFund(closed, loan.from, loan.balance) else Ok(closed);
    if loan.balance > 0 {
      ToFundKeeps(closed, loan.from, loan.balance, loan.balance, 0, d);
      Then(s, closed, loan.balance, 0, d, refunded, 0, 0, d);
    }
    KeptHasBooks(s, refunded.value, 0, 0, d);
    UpdateLimitKeeps(refunded.value, res, loan.receiver, -loan.staked, 0);
    Then(s, refunded.value, 0, 0, d, UpdateLimit(refunded.value, loan.receiver, res, -loan.staked), 0, 0, Delta(0, 0, 0));
  }

  /** Renewing or closing an expired loan. */
  lemma ProcessExpiredKeeps(s: State, res: Resource, k: int)
    requires Invariant(s) && k in LoansOf(s, res)
    ensures Keeps(s, ProcessExpired(s, res, k), 0, 0, Delta(0, 0, 0))
  {
    hide Books, PriceHolds, Balanced, UpdateLimit, Kept, AddLoan, RemoveLoan, BancorOutput, Renewed;
    var pool, rented := ExpiredPool(s, res, k);
    var loan := LoansOf(s, res)[k];
    if Renews(s.(pool := pool), loan, rented) {
      RenewKeeps(s, res, k, pool, rented);
    } else {
      CloseKeeps(s, res, k, pool);
    }
  }

  lemma {:induction false} RunLoansKeeps(s: State, res: Resource, max: nat)
    requires Invariant(s)
    ensures Keeps(s, RunLoans(s, res, max), 0, 0, Delta(0, 0, 0))
    decreases max
  {
    hide Books, PriceHolds, Balanced, Kept, ProcessExpired, Least;
    InvariantKept(s);
    var index := ByExpiry(LoansOf(s, res));
    if max == 0 || index == {} || Least(index).0 > s.now {
    } else {
      var k := Least(index).1;
      ProcessExpiredKeeps(s, res, k);
      if ProcessExpired(s, res, k).Ok? {
        var next := ProcessExpired(s, res, k).value;
        KeptHasBooks(s, next, 0, 0, Delta(0, 0, 0));
        RunLoansKeeps(next, res, max - 1);
        Then(s, next, 0, 0, Delta(0, 0, 0), RunLoans(next, res, max - 1), 0, 0, Delta(0, 0, 0));
      }
    }
  }

  lemma InvariantKept(s: State)
    requires Invariant(s)
    ensures Kept(s, s, 0, 0, Delta(0, 0, 0))
  {
    hide Books;
    SamePool(s, s, 0, 0, Delta(0, 0, 0));
  }

  // ---- sell orders

  lemma OwnerBookOrder(balances: map<Name, Balance>, orders: map<Name, Order>, sec: int, owner: Name, order: Order)
    requires OwnerBook(balances, orders, sec) && (order.isOpen ==> Covered(balances, order, owner))
    ensures OwnerBook(balances, orders[owner := order], sec)
  {
    hide Sound, Clock;
  }

  lemma RowFacts(s: State, owner: Name, g: int, h: int, d: Delta)
    requires Books(s, g, h, d) && owner in s.balances
    ensures Sound(s.balances[owner], s.Seconds(), 0) && Clock(s.Seconds())
    ensures 0 <= s.balances[owner].matured <= s.balances[owner].rex <= s.pool.rex && Balanced(s.pool)
  {
    hide Sum, TokenBook, StakeBook, TotalsBook, Sound, Balanced, LoansSound;
    HeldBounds(s.balances, s.orders, s.Seconds(), owner);
  }

  /** The state after `sold` REX of an owner have been sold for `proceeds`. */
  function Sold(s: State, owner: Name, sold: int, q: Pool): State {
    if owner in s.balances then WithRow(s.(pool := q), owner, Debit(s.balances[owner], sold)) else s
  }

  /** A fill leaves the proceeds to be passed on, and touches no order. */
  lemma SoldKeeps(s: State, owner: Name, sold: int, q: Pool, proceeds: int, g: int)
    requires Books(s, g, 0, Delta(0, 0, 0)) && owner in s.balances && 0 < sold <= s.balances[owner].matured
    requires FillOrder(s.pool, sold) == Ok(Filled(proceeds, q))
    requires HasOpenOrder(s.orders, owner) ==> s.orders[owner].requested <= s.balances[owner].matured - sold
    ensures Kept(s, Sold(s, owner, sold, q), g + proceeds, 0, Delta(0, 0, 0)) && 0 <= proceeds && Reserve(q) <= q.unlent
  {
    hide Sum, PoolBook, TokenBook, OwnerBook, StakeBook, TotalsBook, Balanced, PriceHolds, Sound, FillOrder, Clock, Reserve;
    RowFacts(s, owner, g, 0, Delta(0, 0, 0));
    FillOrderBalanced(s.pool, sold);
    DebitSound(s.balances[owner], sold, s.Seconds());
    PoolIsBalanced(s, g, 0, Delta(0, 0, 0));
    BalancedNonNegative(q);
    PoolBookRex(s.initialized, s.pool, s.cpuLoans, s.netLoans, s.balances, q, owner, Debit(s.balances[owner], sold));
    if HasOpenOrder(s.orders, owner) {
      PendingMatured(s.balances, s.orders, s.Seconds(), owner);
    }
    OwnerBookRow(s.balances, s.orders, s.Seconds(), owner, Debit(s.balances[owner], sold));
    var held := AmountOf(s.tokens, REX_ACCOUNT);
    TokenBookShift(held, s.rexGifts, s.funds, s.cpuLoans, s.netLoans, s.pool.lendable, s.orders, g,
                   held, s.rexGifts, q.lendable);
    InitializedByRex(s, g, 0, Delta(0, 0, 0));
  }

  lemma InitializedByRex(s: State, g: int, h: int, d: Delta)
    requires Books(s, g, h, d) && s.pool.rex > 0
    ensures s.initialized
  {
    hide Sum, TokenBook, OwnerBook, StakeBook, TotalsBook, Balanced;
  }

  /** Closing the order books the proceeds as unclaimed. */
  lemma OrderWrittenBooks(s: State, owner: Name, order: Order, g: int)
    requires Books(s, g, 0, Delta(0, 0, 0)) && 0 <= Unclaimed(owner, order)
    requires order.isOpen ==> Covered(s.balances, order, owner)
    ensures Kept(s, s.(orders := s.orders[owner := order]), g + Share(s.orders, Unclaimed, owner) - Unclaimed(owner, order), 0,
                 Delta(0, 0, 0))
  {
    hide Sum, PoolBook, TokenBook, OwnerBook, StakeBook, TotalsBook, Kept, Share, Covered, Unclaimed;
    TokenBookOrder(AmountOf(s.tokens, REX_ACCOUNT), s.rexGifts, s.funds, s.cpuLoans, s.netLoans, s.pool.lendable, s.orders, g,
                   owner, order);
    OwnerBookOrder(s.balances, s.orders, s.Seconds(), owner, order);
    SamePool(s, s.(orders := s.orders[owner := order]), g + Share(s.orders, Unclaimed, owner) - Unclaimed(owner, order), 0,
             Delta(0, 0, 0));
  }

  /** The owner of an open order has a balance row, and trying to fill the order keeps the books. */
  lemma FillQueuedKeeps(s: State, owner: Name)
    requires Invariant(s) && HasOpenOrder(s.orders, owner)
    ensures owner in s.balances
    ensures Keeps(s, FillQueued(s, owner), 0, 0, Delta(0, 0, 0))
  {
    hide Books, Kept, PriceHolds, Balanced, FillOrder, Share;
    InvariantKept(s);
    var order := s.orders[owner];
    QueuedFacts(s, owner);
    match FillOrder(s.pool, order.requested).value
    case Unfilled =>
    case Filled(proceeds, q) =>
      // the row is written with the order held back, then the order is closed
      ClosedFirst(s, owner, proceeds, q);
  }

  lemma QueuedFacts(s: State, owner: Name)
    requires Invariant(s) && HasOpenOrder(s.orders, owner)
    ensures owner in s.balances && 0 < s.orders[owner].requested <= s.balances[owner].matured
    ensures FillOrder(s.pool, s.orders[owner].requested).Ok?
  {
    hide Sum, PoolBook, TokenBook, OwnerBook, StakeBook, TotalsBook, FillOrder, Balanced;
    PendingMatured(s.balances, s.orders, s.Seconds(), owner);
    RowFacts(s, owner, 0, 0, Delta(0, 0, 0));
    FillOrderBalanced(s.pool, s.orders[owner].requested);
  }

  lemma ClosedFirst(s: State, owner: Name, proceeds: int, q: Pool)
    requires Invariant(s) && HasOpenOrder(s.orders, owner) && owner in s.balances
    requires 0 < s.orders[owner].requested <= s.balances[owner].matured
    requires FillOrder(s.pool, s.orders[owner].requested) == Ok(Filled(proceeds, q))
    ensures var closed := s.(orders := s.orders[owner := s.orders[owner].(proceeds := proceeds, isOpen := false)]);
      Kept(s, Sold(closed, owner, s.orders[owner].requested, q), 0, 0, Delta(0, 0, 0))
  {
    hide Books, Kept, PriceHolds, Balanced, FillOrder, Sold, Reserve;
    var order := s.orders[owner];
    FilledProceeds(s, owner, proceeds, q);
    var closed := s.(orders := s.orders[owner := order.(proceeds := proceeds, isOpen := false)]);
    OrderWrittenBooks(s, owner, order.(proceeds := proceeds, isOpen := false), 0);
    KeptHasBooks(s, closed, -proceeds, 0, Delta(0, 0, 0));
    SoldKeeps(closed, owner, order.requested, q, proceeds, -proceeds);
    Then(s, closed, -proceeds, 0, Delta(0, 0, 0), Ok(Sold(closed, owner, order.requested, q)), 0, 0, Delta(0, 0, 0));
  }

  lemma FilledProceeds(s: State, owner: Name, proceeds: int, q: Pool)
    requires Invariant(s) && HasOpenOrder(s.orders, owner) && owner in s.balances
    requires 0 < s.orders[owner].requested <= s.balances[owner].matured
    requires FillOrder(s.pool, s.orders[owner].requested) == Ok(Filled(proceeds, q))
    ensures 0 <= proceeds
  {
    hide Books, Balanced, FillOrder, Sound;
    RowFacts(s, owner, 0, 0, Delta(0, 0, 0));
    FillOrderBalanced(s.pool, s.orders[owner].requested);
  }

  lemma {:induction false} RunOrdersKeeps(s: State, after: (int, int), max: nat)
    requires Invariant(s)
    ensures Keeps(s, RunOrders(s, after, max), 0, 0, Delta(0, 0, 0))
    decreases max
  {
    hide Books, PriceHolds, Balanced, Kept, FillQueued, Least;
    InvariantKept(s);
    if max == 0 || OpenAfter(s.orders, after) == {} {
    } else {
      var first := Least(OpenAfter(s.orders, after));
      FillQueuedKeeps(s, first.1);
      if FillQueued(s, first.1).Ok? {
        var next := FillQueued(s, first.1).value;
        KeptHasBooks(s, next, 0, 0, Delta(0, 0, 0));
        RunOrdersKeeps(next, first, max - 1);
        Then(s, next, 0, 0, Delta(0, 0, 0), RunOrders(next, first, max - 1), 0, 0, Delta(0, 0, 0));
      }
    }
  }

  // ---- fees

  /** A change of the pool row that keeps shares and lent tokens. */
  lemma PoolWrittenKeeps(s: State, q: Pool, g: int)
    requires Books(s, g, 0, Delta(0, 0, 0)) && Balanced(q) && PriceHolds(s.pool, q) && (s.initialized || Unused(q))
    requires q.lent == s.pool.lent && q.loanNum == s.pool.loanNum && q.rex == s.pool.rex
    ensures Kept(s, s.(pool := q), g - (q.lendable - s.pool.lendable), 0, Delta(0, 0, 0))
  {
    hide Sum, PoolBook, TokenBook, OwnerBook, StakeBook, TotalsBook, Balanced, PriceHolds;
    PoolIsBalanced(s, g, 0, Delta(0, 0, 0));
    BalancedNonNegative(q);
    PoolBookPool(s.initialized, s.pool, s.cpuLoans, s.netLoans, s.balances, q);
    var held := AmountOf(s.tokens, REX_ACCOUNT);
    TokenBookShift(held, s.rexGifts, s.funds, s.cpuLoans, s.netLoans, s.pool.lendable, s.orders, g,
                   held, s.rexGifts, q.lendable);
  }

  lemma ChannelToRexKeeps(s: State, from: Name, amount: int, required: bool)
    requires Invariant(s) && from != STAKE_ACCOUNT
    ensures Keeps(s, ChannelToRex(s, from, amount, required), 0, 0, Delta(0, 0, 0))
    ensures ChannelToRex(s, from, amount, required).Ok? ==>
      var t := ChannelToRex(s, from, amount, required).value;
      t.pool.namebid == s.pool.namebid && t.initialized == s.initialized
  {
    hide Books, Kept, Balanced, PriceHolds;
    InvariantKept(s);
    var out := ChannelToRex(s, from, amount, required);
    if RexAvailable(s) && out.Ok? {
      var fed := s.(pool := AddFee(s.pool, amount));
      InvariantPool(s);
      AddFeeBalanced(s.pool, amount);
      PoolWrittenKeeps(s, AddFee(s.pool, amount), 0);
      KeptHasBooks(s, fed, -amount, 0, Delta(0, 0, 0));
      if from != REX_ACCOUNT {
        TransferKeeps(fed, from, REX_ACCOUNT, amount, -amount, 0, Delta(0, 0, 0));
        Then(s, fed, -amount, 0, Delta(0, 0, 0), out, 0, 0, Delta(0, 0, 0));
      }
    }
  }

  lemma InvariantPool(s: State)
    requires Invariant(s)
    ensures Balanced(s.pool) && (s.initialized || Unused(s.pool))
  {
    hide Sum, TokenBook, OwnerBook, StakeBook, TotalsBook, Balanced, Unused;
  }

  lemma NamebidBalanced(p: Pool, namebid: int)
    requires Balanced(p)
    ensures Balanced(p.(namebid := namebid)) && PriceHolds(p, p.(namebid := namebid))
  {
  }

  lemma ChannelNamebidsKeeps(s: State)
    requires Invariant(s)
    ensures Keeps(s, ChannelNamebids(s), 0, 0, Delta(0, 0, 0))
  {
    hide Books, Kept, Balanced, PriceHolds, ChannelToRex;
    InvariantKept(s);
    InvariantPool(s);
    if s.pool.namebid > 0 {
      ChannelToRexKeeps(s, NAMES_ACCOUNT, s.pool.namebid, false);
      if ChannelToRex(s, NAMES_ACCOUNT, s.pool.namebid, false).Ok? {
        var t := ChannelToRex(s, NAMES_ACCOUNT, s.pool.namebid, false).value;
        KeptHasBooks(s, t, 0, 0, Delta(0, 0, 0));
        InvariantPool(t);
        NamebidBalanced(t.pool, 0);
        PoolWrittenKeeps(t, t.pool.(namebid := 0), 0);
        Then(s, t, 0, 0, Delta(0, 0, 0), ChannelNamebids(s), 0, 0, Delta(0, 0, 0));
      }
    }
  }

  // ---- runrex

  /** runrex keeps the books from any state that has them. */
  lemma RunRexKeeps(s: State, max: nat)
    requires Invariant(s)
    ensures Keeps(s, RunRex(s, max), 0, 0, Delta(0, 0, 0))
  {
    hide Books, Kept, ChannelNamebids, RunLoans, RunOrders;
    ChannelNamebidsKeeps(s);
    if ChannelNamebids(s).Ok? {
      var a := ChannelNamebids(s).value;
      RunLoansFrom(s, a, Cpu, max);
      if RunLoans(a, Cpu, max).Ok? {
        var b := RunLoans(a, Cpu, max).value;
        RunLoansFrom(s, b, Net, max);
        if RunLoans(b, Net, max).Ok? {
          RunOrdersFrom(s, RunLoans(b, Net, max).value, max);
        }
      }
    }
  }

  lemma RunLoansFrom(s: State, a: State, res: Resource, max: nat)
    requires Kept(s, a, 0, 0, Delta(0, 0, 0))
    ensures Keeps(s, RunLoans(a, res, max), 0, 0, Delta(0, 0, 0))
  {
    hide Books, Kept, RunLoans;
    KeptHasBooks(s, a, 0, 0, Delta(0, 0, 0));
    RunLoansKeeps(a, res, max);
    Then(s, a, 0, 0, Delta(0, 0, 0), RunLoans(a, res, max), 0, 0, Delta(0, 0, 0));
  }

  lemma RunOrdersFrom(s: State, a: State, max: nat)
    requires Kept(s, a, 0, 0, Delta(0, 0, 0))
    ensures Keeps(s, RunOrders(a, (-1, -1), max), 0, 0, Delta(0, 0, 0))
  {
    hide Books, Kept, RunOrders;
    KeptHasBooks(s, a, 0, 0, Delta(0, 0, 0));
    RunOrdersKeeps(a, (-1, -1), max);
    Then(s, a, 0, 0, Delta(0, 0, 0), RunOrders(a, (-1, -1), max), 0, 0, Delta(0, 0, 0));
  }
}
