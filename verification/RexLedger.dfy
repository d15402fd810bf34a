/** What the REX actions do to the tables, as functions of the state. */
module RexLedger {
  import opened ExchangeState
  import opened Outcomes
  import opened RexMaturities
  import opened RexPool
  import opened SystemTables

  // ---- helpers shared by the actions

  function TransferFromFund(s: State, owner: Name, amount: int): Outcome<State> {
    var allowed := 0 < amount;
    :- Check(allowed);
    :- Check(owner in s.funds);
    :- Check(amount <= s.funds[owner]);
    Ok(s.(funds := s.funds[owner := s.funds[owner] - amount]))
  }

  function TransferToFund(s: State, owner: Name, amount: int): Outcome<State> {
    var allowed := 0 < amount;
    :- Check(allowed);
    Ok(s.(funds := s.funds[owner := AmountOf(s.funds, owner) + amount]))
  }

  predicate RexAvailable(s: State) {
    s.initialized && s.pool.rex > 0
  }

  predicate NoOpenOrders(s: State) {
    forall o :: o in s.orders ==> !s.orders[o].isOpen
  }

  predicate LoansAvailable(s: State) {
    RexAvailable(s) && NoOpenOrders(s)
  }

  /** add_to_rex_pool followed by add_to_rex_balance. */
  function Buy(s: State, owner: Name, payment: int): Outcome<State> {
    var (pool, received) :- AddToPool(s.pool, s.initialized, payment);
    var row := if owner in s.balances then s.balances[owner] else Balance(0, 0, []);
    Ok(s.(initialized := true, pool := pool, balances := s.balances[owner := Credit(row, received, s.Seconds())]))
  }

  /** update_rex_account: claim a filled order; the second result is the REX in the owner's open order. */
  function UpdateRexAccount(s: State, owner: Name, proceeds: int): (r: (State, int))
    ensures r.0.balances == s.balances && r.0.pool == s.pool && r.0.now == s.now
  {
    var toFund := proceeds + ClaimableOf(s.orders, owner);
    (s.(orders := WithoutFilled(s.orders, owner), funds := Funded(s.funds, owner, toFund)), PendingOf(s.orders, owner))
  }

  predicate HasOpenOrder(orders: map<Name, Order>, owner: Name) {
    owner in orders && orders[owner].isOpen
  }

  predicate HasFilledOrder(orders: map<Name, Order>, owner: Name) {
    owner in orders && !orders[owner].isOpen
  }

  /** The proceeds an owner has to claim. */
  function ClaimableOf(orders: map<Name, Order>, owner: Name): int {
    if HasFilledOrder(orders, owner) then orders[owner].proceeds else 0
  }

  function PendingOf(orders: map<Name, Order>, owner: Name): int {
    if HasOpenOrder(orders, owner) then orders[owner].requested else 0
  }

  function WithoutFilled(orders: map<Name, Order>, owner: Name): map<Name, Order> {
    if HasFilledOrder(orders, owner) then orders - {owner} else orders
  }

  /** transfer_to_fund, called only with something to transfer. */
  function Funded(funds: map<Name, int>, owner: Name, toFund: int): map<Name, int> {
    if toFund > 0 then funds[owner := AmountOf(funds, owner) + toFund] else funds
  }

  function ChannelToRex(s: State, from: Name, amount: int, required: bool): Outcome<State> {
    if RexAvailable(s) then Transfer(s.(pool := AddFee(s.pool, amount)), from, REX_ACCOUNT, amount)
    else
      :- Check(!required);
      Ok(s)
  }

  function WithRow(s: State, owner: Name, row: Balance): State {
    s.(balances := s.balances[owner := row])
  }

  function WithMatured(s: State, owner: Name): State
    requires owner in s.balances
  {
    WithRow(s, owner, Mature(s.balances[owner], s.Seconds()))
  }

  // ---- runrex

  /** The renewed loan. */
  function Renewed(loan: Loan, rented: int): Loan {
    loan.(staked := rented, expiration := loan.expiration + LOAN_TERM, balance := loan.balance - loan.payment)
  }

  predicate Renews(s: State, loan: Loan, rented: int) {
    loan.payment <= loan.balance && loan.payment < rented && LoansAvailable(s)
  }

  /** add_loan_to_rex_pool and update_renewed_loan. */
  function RenewLoan(s: State, res: Resource, k: int, rented: int): State
    requires k in LoansOf(s, res)
  {
    var loan := LoansOf(s, res)[k];
    WithLoans(s.(pool := AddLoan(s.pool, loan.payment, rented, false)), res, LoansOf(s, res)[k := Renewed(loan, rented)])
  }

  /** The row goes, and its balance goes back to the creator's fund. */
  function CloseLoan(s: State, res: Resource, k: int): Outcome<State>
    requires k in LoansOf(s, res)
  {
    var loan := LoansOf(s, res)[k];
    var closed := WithLoans(s, res, LoansOf(s, res) - {k});
    if loan.balance > 0 then TransferToFund(closed, loan.from, loan.balance) else Ok(closed)
  }

  /** The end of process_expired_loan, and what runrex does with its result. */
  function RenewOrClose(s: State, res: Resource, k: int, rented: int): Outcome<State>
    requires k in LoansOf(s, res)
  {
    var loan := LoansOf(s, res)[k];
    if Renews(s, loan, rented) then
      UpdateLimit(RenewLoan(s, res, k, rented), loan.receiver, res, rented - loan.staked)
    else
      var closed :- CloseLoan(s, res, k);
      UpdateLimit(closed, loan.receiver, res, -loan.staked)
  }

  /** process_expired_loan: out of the pool, priced again, renewed or closed. */
  function ProcessExpired(s: State, res: Resource, k: int): Outcome<State>
    requires k in LoansOf(s, res)
  {
    var loan := LoansOf(s, res)[k];
    var pool :- RemoveLoan(s.pool, loan.staked);
    var rented :- BancorOutput(pool.rent, pool.unlent, loan.payment);
    RenewOrClose(s.(pool := pool), res, k, rented)
  }

  /** Up to `max` expired loans, the one that expires first each time. */
  ghost function RunLoans(s: State, res: Resource, max: nat): Outcome<State>
    decreases max
  {
    var index := ByExpiry(LoansOf(s, res));
    if max == 0 || index == {} then Ok(s)
    else
      var (expiration, k) := Least(index);
      if expiration > s.now then Ok(s)
      else
        var next :- ProcessExpired(s, res, k);
        RunLoans(next, res, max - 1)
  }

  /** fill_rex_order on an open order in the queue, which is closed when it is filled. */
  function FillQueued(s: State, owner: Name): Outcome<State>
    requires owner in s.orders
  {
    if owner !in s.balances then Ok(s)   // "should always be true"
    else
      var order := s.orders[owner];
      var fill :- RexPool.FillOrder(s.pool, order.requested);
      match fill
      case Unfilled => Ok(s)
      case Filled(proceeds, pool) =>
        Ok(WithRow(s.(pool := pool, orders := s.orders[owner := order.(proceeds := proceeds, isOpen := false)]),
                   owner, Debit(s.balances[owner], order.requested)))
  }

  /** The sell orders are tried in order of time; the successor of an order is found before it is filled. */
  ghost function RunOrders(s: State, after: (int, int), max: nat): Outcome<State>
    decreases max
  {
    if max == 0 || OpenAfter(s.orders, after) == {} then Ok(s)
    else
      var first := Least(OpenAfter(s.orders, after));
      var next :- FillQueued(s, first.1);
      RunOrders(next, first, max - 1)
  }

  /** The name bid proceeds set aside in the pool row go to REX when anyone holds REX, and are cleared either way. */
  function ChannelNamebids(s: State): Outcome<State> {
    if s.pool.namebid > 0 then
      var channelled :- ChannelToRex(s, NAMES_ACCOUNT, s.pool.namebid, false);
      Ok(channelled.(pool := channelled.pool.(namebid := 0)))
    else Ok(s)
  }

  ghost function RunRex(s: State, max: nat): Outcome<State> {
    var allowed := s.initialized;
    :- Check(allowed);
    var channelled :- ChannelNamebids(s);
    var cpu :- RunLoans(channelled, Cpu, max);
    var net :- RunLoans(cpu, Net, max);
    RunOrders(net, (-1, -1), max)   // from before every order
  }

  // ---- the actions

  function Deposit(s: State, owner: Name, amount: int): Outcome<State> {
    var allowed := 0 < amount;
    :- Check(allowed);
    var paid :- Transfer(s, owner, REX_ACCOUNT, amount);
    TransferToFund(paid, owner, amount)
  }

  function Withdraw(s: State, owner: Name, amount: int): Outcome<State> {
    var allowed := 0 < amount;
    :- Check(allowed);
    var (updated, _) := UpdateRexAccount(s, owner, 0);
    var taken :- TransferFromFund(updated, owner, amount);
    Transfer(taken, REX_ACCOUNT, owner, amount)
  }

  ghost function BuyRex(s: State, from: Name, amount: int): Outcome<State> {
    var allowed := 0 < amount;
    :- Check(allowed);
    var taken :- TransferFromFund(s, from, amount);
    var bought :- Buy(taken, from, amount);
    var run :- RunRex(bought, 2);
    var (updated, _) := UpdateRexAccount(run, from, 0);
    Ok(updated)
  }

  ghost function UnstakeToRex(s: State, owner: Name, receiver: Name, fromNet: int, fromCpu: int): Outcome<State> {
    var allowed := 0 <= fromNet && 0 <= fromCpu && 0 < fromNet + fromCpu;
    :- Check(allowed);
    var unstaked :- Undelegate(s, owner, receiver, fromNet, fromCpu);
    var limited :- UpdateResourceLimits(unstaked, receiver, -fromNet, -fromCpu);
    var paid :- Transfer(limited, STAKE_ACCOUNT, REX_ACCOUNT, fromNet + fromCpu);
    var bought :- Buy(paid, owner, fromNet + fromCpu);
    var run :- RunRex(bought, 2);
    var (updated, _) := UpdateRexAccount(run, owner, 0);
    Ok(updated)
  }

  /** The part of unstaketorex that reduces the delegation. */
  function Undelegate(s: State, owner: Name, receiver: Name, fromNet: int, fromCpu: int): Outcome<State> {
    var key := (owner, receiver);
    :- Check(key in s.delegations);
    var row := s.delegations[key];
    :- Check(fromNet <= row.net && fromCpu <= row.cpu);
    Ok(s.(delegations := WithDelegation(s.delegations, key, Delegation(row.net - fromNet, row.cpu - fromCpu))))
  }

  ghost function SellRex(s: State, from: Name, rex: int): Outcome<State> {
    var run :- RunRex(s, 2);
    :- Check(from in run.balances && rex > 0);
    SellMatured(WithMatured(run, from), from, rex)
  }

  function SellMatured(s: State, from: Name, rex: int): Outcome<State>
    requires from in s.balances
  {
    var allowed := rex <= s.balances[from].matured;
    :- Check(allowed);
    var fill :- RexPool.FillOrder(s.pool, rex);
    match fill
    case Filled(proceeds, pool) =>
      :- Check(proceeds != 0);
      var debited := WithRow(s.(pool := pool), from, Debit(s.balances[from], rex));
      var (updated, pending) := UpdateRexAccount(debited, from, proceeds);
      :- Check(pending <= updated.balances[from].matured);
      Ok(updated)
    case Unfilled =>
      var (updated, _) := UpdateRexAccount(s, from, 0);
      Enqueue(updated, from, rex)
  }

  /** An order that could not be filled is queued, or added to the one its owner has in the queue. */
  function Enqueue(s: State, from: Name, rex: int): Outcome<State>
    requires from in s.balances
  {
    var allowed := from != B1;
    :- Check(allowed);
    var order := if from in s.orders then s.orders[from].(requested := s.orders[from].requested + rex)
                 else Order(rex, 0, s.now, true);
    :- Check(order.requested <= s.balances[from].matured);
    Ok(s.(orders := s.orders[from := order]))
  }

  function CancelRexOrder(s: State, owner: Name): Outcome<State> {
    var allowed := owner in s.orders;
    :- Check(allowed);
    :- Check(s.orders[owner].isOpen);
    Ok(s.(orders := s.orders - {owner}))
  }

  /** rentcpu and rentnet. */
  ghost function Rent(s: State, res: Resource, from: Name, receiver: Name, payment: int, fund: int): Outcome<State> {
    var run :- RunRex(s, 2);
    :- Check(LoansAvailable(run));
    :- Check(0 < payment && 0 <= fund);
    var taken :- TransferFromFund(run, from, payment + fund);
    OpenLoan(taken, res, from, receiver, payment, fund)
  }

  function OpenLoan(s: State, res: Resource, from: Name, receiver: Name, payment: int, fund: int): Outcome<State> {
    var rented :- BancorOutput(s.pool.rent, s.pool.unlent, payment);
    :- Check(payment < rented);
    var pool := AddLoan(s.pool, payment, rented, true);
    :- Expected(pool.loanNum !in LoansOf(s, res), DuplicateLoan);
    var loan := Loan(from, receiver, payment, fund, rented, s.now + LOAN_TERM);
    UpdateLimit(WithLoans(s.(pool := pool), res, LoansOf(s, res)[pool.loanNum := loan]), receiver, res, rented)
  }

  /** fundcpuloan and fundnetloan. */
  function FundLoan(s: State, res: Resource, from: Name, k: int, payment: int): Outcome<State> {
    var taken :- TransferFromFund(s, from, payment);
    var loans := LoansOf(s, res);
    :- Check(k in loans);
    :- Check(loans[k].from == from && loans[k].expiration > s.now);
    Ok(WithLoans(taken, res, loans[k := loans[k].(balance := loans[k].balance + payment)]))
  }

  /** defcpuloan and defnetloan. */
  function DefundLoan(s: State, res: Resource, from: Name, k: int, amount: int): Outcome<State> {
    var loans := LoansOf(s, res);
    :- Check(k in loans);
    :- Check(loans[k].from == from && loans[k].expiration > s.now);
    :- Check(loans[k].balance >= amount);
    TransferToFund(WithLoans(s, res, loans[k := loans[k].(balance := loans[k].balance - amount)]), from, amount)
  }

  ghost function UpdateRex(s: State, owner: Name): Outcome<State> {
    var run :- RunRex(s, 2);
    :- Check(owner in run.balances);
    var (updated, _) := UpdateRexAccount(run, owner, 0);
    Ok(WithMatured(updated, owner))
  }

  function SetRex(s: State, balance: int): Outcome<State> {
    var allowed := balance > 0;
    :- Check(allowed);
    :- Check(s.initialized);
    Ok(s.(pool := s.pool.(rent := balance)))
  }

  ghost function ConsolidateRex(s: State, owner: Name): Outcome<State> {
    var run :- RunRex(s, 2);
    :- Check(owner in run.balances);
    var (updated, pending) := UpdateRexAccount(run, owner, 0);
    Ok(WithRow(updated, owner, Consolidate(updated.balances[owner], pending, updated.Seconds())))
  }

  ghost function MoveRexToSavings(s: State, owner: Name, rex: int): Outcome<State> {
    var run :- RunRex(s, 2);
    :- Check(owner in run.balances && rex > 0);
    var (updated, pending) := UpdateRexAccount(run, owner, 0);
    var row :- MoveToSavings(updated.balances[owner], rex, pending, updated.Seconds());
    Ok(WithRow(updated, owner, row))
  }

  ghost function MoveRexFromSavings(s: State, owner: Name, rex: int): Outcome<State> {
    var run :- RunRex(s, 2);
    :- Check(owner in run.balances && rex > 0);
    var row :- MoveFromSavings(run.balances[owner], rex, run.Seconds());
    var (updated, _) := UpdateRexAccount(WithRow(run, owner, row), owner, 0);
    Ok(updated)
  }

  predicate NoLoansOf(loans: map<int, Loan>, owner: Name) {
    forall k :: k in loans ==> loans[k].from != owner
  }

  ghost function CloseRex(s: State, owner: Name): Outcome<State> {
    var run :- if s.initialized then RunRex(s, 2) else Ok(s);
    CloseRows(run, owner)
  }

  /** The fund row goes when it is empty and its owner has no loans. */
  function WithoutFund(s: State, owner: Name): State {
    if NoLoansOf(s.cpuLoans, owner) && NoLoansOf(s.netLoans, owner) && owner in s.funds && s.funds[owner] == 0 then
      s.(funds := s.funds - {owner})
    else s
  }

  function CloseRows(s: State, owner: Name): Outcome<State> {
    var (updated, _) := UpdateRexAccount(s, owner, 0);
    var unfunded := WithoutFund(updated, owner);
    if owner in unfunded.balances then
      :- Check(unfunded.balances[owner].rex == 0);
      Ok(unfunded.(balances := unfunded.balances - {owner}))
    else Ok(unfunded)
  }

  /** channel_namebid_to_rex, when a name auction closes. */
  function ChannelNamebid(s: State, highestBid: int): State {
    if RexAvailable(s) then s.(pool := s.pool.(namebid := s.pool.namebid + highestBid)) else s
  }

  /**
   * distviarex, and the channelling of RAM fees. Neither the caller nor the symbol is checked: an amount in another
   * token is credited to the pool all the same while the transfer moves that other token.
   */
  function DistributeViaRex(s: State, from: Name, amount: int, core: bool): Outcome<State> {
    if core || !RexAvailable(s) then ChannelToRex(s, from, amount, false)
    else
      :- Check(from != REX_ACCOUNT && 0 < amount);
      Ok(s.(pool := AddFee(s.pool, amount)))
  }
}
