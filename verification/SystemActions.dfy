/** The actions pushed to the system contract, and what a run of them does. */
module SystemActions {
  import opened Outcomes
  import opened RexMaturities
  import opened RexPool
  import opened SystemTables
  import opened RexLedger
  import opened Bandwidth

  datatype Action =
    | Deposit(owner: Name, amount: int)
    | Withdraw(owner: Name, amount: int)
    | BuyRex(from: Name, amount: int)
    | UnstakeToRex(owner: Name, receiver: Name, fromNet: int, fromCpu: int)
    | SellRex(from: Name, rex: int)
    | CancelRexOrder(owner: Name)
    | Rent(res: Resource, from: Name, receiver: Name, payment: int, fund: int)
    | FundLoan(res: Resource, from: Name, loanNum: int, payment: int)
    | DefundLoan(res: Resource, from: Name, loanNum: int, amount: int)
    | UpdateRex(owner: Name)
    | SetRex(balance: int)
    | RexExec(max: nat)
    | Consolidate(owner: Name)
    | MoveToSavings(owner: Name, rex: int)
    | MoveFromSavings(owner: Name, rex: int)
    | CloseRex(owner: Name)
    | DelegateBandwidth(from: Name, receiver: Name, net: int, cpu: int, transfer: bool)
    | UndelegateBandwidth(from: Name, receiver: Name, net: int, cpu: int)
    | ClaimRefund(owner: Name)
    | DistributeViaRex(from: Name, amount: int, core: bool)
      // the rest of the chain
    | CloseNameAuction(highestBid: int)
    | NewAccount(owner: Name)
    | SetRam(owner: Name, ram: int)
    | PlainTransfer(from: Name, to: Name, amount: int)
    | Wait(microseconds: nat)

  ghost function Step(s: State, a: Action): Outcome<State> {
    match a
    case Deposit(owner, amount) => RexLedger.Deposit(s, owner, amount)
    case Withdraw(owner, amount) => RexLedger.Withdraw(s, owner, amount)
    case BuyRex(from, amount) => RexLedger.BuyRex(s, from, amount)
    case UnstakeToRex(owner, receiver, fromNet, fromCpu) => RexLedger.UnstakeToRex(s, owner, receiver, fromNet, fromCpu)
    case SellRex(from, rex) => RexLedger.SellRex(s, from, rex)
    case CancelRexOrder(owner) => RexLedger.CancelRexOrder(s, owner)
    case Rent(res, from, receiver, payment, fund) => RexLedger.Rent(s, res, from, receiver, payment, fund)
    case FundLoan(res, from, loanNum, payment) => RexLedger.FundLoan(s, res, from, loanNum, payment)
    case DefundLoan(res, from, loanNum, amount) => RexLedger.DefundLoan(s, res, from, loanNum, amount)
    case UpdateRex(owner) => RexLedger.UpdateRex(s, owner)
    case SetRex(balance) => RexLedger.SetRex(s, balance)
    case RexExec(max) => RunRex(s, max)
    case Consolidate(owner) => ConsolidateRex(s, owner)
    case MoveToSavings(owner, rex) => MoveRexToSavings(s, owner, rex)
    case MoveFromSavings(owner, rex) => MoveRexFromSavings(s, owner, rex)
    case CloseRex(owner) => RexLedger.CloseRex(s, owner)
    case DelegateBandwidth(from, receiver, net, cpu, transfer) =>
      Bandwidth.DelegateBandwidth(s, from, receiver, net, cpu, transfer)
    case UndelegateBandwidth(from, receiver, net, cpu) => Bandwidth.UndelegateBandwidth(s, from, receiver, net, cpu)
    case ClaimRefund(owner) => Bandwidth.ClaimRefund(s, owner)
    case DistributeViaRex(from, amount, core) => RexLedger.DistributeViaRex(s, from, amount, core)
    case CloseNameAuction(highestBid) => Ok(ChannelNamebid(s, highestBid))
    case NewAccount(owner) => OpenAccount(s, owner)
    case SetRam(owner, ram) => ChangeRam(s, owner, ram)
    case PlainTransfer(from, to, amount) => Give(s, from, to, amount)
    case Wait(microseconds) => Ok(s.(now := s.now + microseconds))
  }

  /** newaccount. */
  function OpenAccount(s: State, owner: Name): Outcome<State> {
    var allowed := owner !in s.totals;
    :- Check(allowed);
    Ok(s.(totals := s.totals[owner := Resources(0, 0, 0)]))
  }

  /** What buyram and sellram do to the userres row. */
  function ChangeRam(s: State, owner: Name, ram: int): Outcome<State> {
    Ok(s.(totals := s.totals[owner := ResourcesOf(s.totals, owner).(ram := ram)]))
  }

  /** A transfer of core tokens pushed to the token contract itself. */
  function Give(s: State, from: Name, to: Name, amount: int): Outcome<State> {
    var paid :- Transfer(s, from, to, amount);
    Ok(paid.(rexGifts := if to == REX_ACCOUNT then s.rexGifts + amount else s.rexGifts,
             stakeGifts := if to == STAKE_ACCOUNT then s.stakeGifts + amount else s.stakeGifts))
  }

  /**
   * The actions the results are about: eosio.rex and eosio.stake themselves push none of those that move their
   * tokens, fees are in core tokens, and the clock stays inside its 32 bits.
   */
  predicate Admissible(s: State, a: Action) {
    match a
    case Deposit(owner, _) => owner != STAKE_ACCOUNT
    case Withdraw(owner, _) => owner != STAKE_ACCOUNT
    case DelegateBandwidth(from, _, _, _, _) => from != REX_ACCOUNT && from != STAKE_ACCOUNT
    case UndelegateBandwidth(from, _, _, _) => from != STAKE_ACCOUNT
    case ClaimRefund(owner) => owner != REX_ACCOUNT
    case DistributeViaRex(from, _, core) => from != STAKE_ACCOUNT && core
    case PlainTransfer(from, _, _) => from != REX_ACCOUNT && from != STAKE_ACCOUNT
    case Wait(microseconds) => Clock((s.now + microseconds) / 1000000)
    case _ => true
  }

  /** A failed action leaves everything as it was. */
  ghost function After(s: State, a: Action): State {
    match Step(s, a)
    case Ok(next) => next
    case _ => s
  }

  ghost predicate AllAdmissible(s: State, actions: seq<Action>)
    decreases |actions|
  {
    actions == [] || (Admissible(s, actions[0]) && AllAdmissible(After(s, actions[0]), actions[1..]))
  }

  ghost function Run(s: State, actions: seq<Action>): State
    decreases |actions|
  {
    if actions == [] then s else Run(After(s, actions[0]), actions[1..])
  }

  /** Nothing is staked, funded, lent or bought yet; the tokens are anywhere but with the two custodians. */
  predicate Genesis(s: State) {
    && Clock(s.Seconds())
    && !s.initialized && s.pool == Pool(0, 0, 0, 0, 0, 0, 0)
    && s.funds == map[] && s.balances == map[] && s.cpuLoans == map[] && s.netLoans == map[] && s.orders == map[]
    && s.delegations == map[] && s.totals == map[] && s.refunds == map[]
    && AmountOf(s.tokens, REX_ACCOUNT) == 0 && AmountOf(s.tokens, STAKE_ACCOUNT) == 0
    && s.rexGifts == 0 && s.stakeGifts == 0
  }
}
