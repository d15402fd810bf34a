/** What every state of the system contract satisfies, book by book. */
module SystemBooks {
  import opened TableSums
  import opened RexMaturities
  import opened RexPool
  import opened SystemTables

  // ---- measures of table rows

  function Amount(n: Name, v: int): int { v }

  function Held(n: Name, b: Balance): int { b.rex }

  function LoanStake(k: int, loan: Loan): int { loan.staked }

  function LoanFund(k: int, loan: Loan): int { loan.balance }

  /** Proceeds of a filled order that its owner has not claimed. */
  function Unclaimed(n: Name, o: Order): int { if o.isOpen then 0 else o.proceeds }

  function Delegated(k: (Name, Name), d: Delegation): int { d.net + d.cpu }

  function Refundable(n: Name, r: Refund): int { r.net + r.cpu }

  ghost function NetTo(r: Name): ((Name, Name), Delegation) -> int {
    (k: (Name, Name), d: Delegation) => if k.1 == r then d.net else 0
  }

  ghost function CpuTo(r: Name): ((Name, Name), Delegation) -> int {
    (k: (Name, Name), d: Delegation) => if k.1 == r then d.cpu else 0
  }

  ghost function RentedTo(r: Name): (int, Loan) -> int {
    (k: int, loan: Loan) => if loan.receiver == r then loan.staked else 0
  }

  // ---- the books

  /** Every loan pays something, stakes something and has a number the pool has given out. */
  predicate LoansSound(loans: map<int, Loan>, loanNum: int) {
    forall k :: k in loans ==> k <= loanNum && 0 < loans[k].payment && 0 <= loans[k].balance && 0 < loans[k].staked
  }

  /** The pool is balanced, its lent tokens are those staked by the loans, its REX is what the owners hold. */
  ghost predicate PoolBook(initialized: bool, pool: Pool, cpu: map<int, Loan>, net: map<int, Loan>, balances: map<Name, Balance>)
  {
    && Balanced(pool) && (!initialized ==> Unused(pool))
    && pool.lent == Sum(cpu, LoanStake) + Sum(net, LoanStake)
    && pool.rex == Sum(balances, Held)
    && LoansSound(cpu, pool.loanNum) && LoansSound(net, pool.loanNum)
  }

  /** The tokens eosio.rex answers for. */
  ghost function Liabilities(funds: map<Name, int>, cpu: map<int, Loan>, net: map<int, Loan>, lendable: int,
                             orders: map<Name, Order>): int {
    Sum(funds, Amount) + Sum(cpu, LoanFund) + Sum(net, LoanFund) + lendable + Sum(orders, Unclaimed)
  }

  /** eosio.rex holds what it answers for, what it was given, and `gap` tokens an action has still to account for. */
  ghost predicate TokenBook(held: int, gifts: int, funds: map<Name, int>, cpu: map<int, Loan>, net: map<int, Loan>,
                            lendable: int, orders: map<Name, Order>, gap: int) {
    && held == Liabilities(funds, cpu, net, lendable, orders) + gifts + gap
    && 0 <= gifts && 0 <= lendable
    && (forall n :: n in funds ==> 0 <= funds[n])
    && (forall k :: k in cpu ==> 0 <= cpu[k].balance) && (forall k :: k in net ==> 0 <= net[k].balance)
    && (forall n :: n in orders ==> 0 <= Unclaimed(n, orders[n]))
  }

  /** Rows of owners are sound, and an open order asks for no more than has matured. */
  predicate OwnerBook(balances: map<Name, Balance>, orders: map<Name, Order>, sec: int) {
    && Clock(sec)
    && (forall n :: n in balances ==> Sound(balances[n], sec, 0))
    && (forall n :: n in orders && orders[n].isOpen ==> Covered(balances, orders[n], n))
  }

  predicate Covered(balances: map<Name, Balance>, order: Order, n: Name) {
    n in balances && 0 < order.requested <= balances[n].matured
  }

  /** The tokens eosio.stake answers for. */
  ghost function Staked(delegations: map<(Name, Name), Delegation>, refunds: map<Name, Refund>): int {
    Sum(delegations, Delegated) + Sum(refunds, Refundable)
  }

  /** eosio.stake holds what is delegated and what is being refunded, what it was given, and `gap` more. */
  ghost predicate StakeBook(held: int, gifts: int, delegations: map<(Name, Name), Delegation>, refunds: map<Name, Refund>,
                            gap: int) {
    && held == Staked(delegations, refunds) + gifts + gap
    && 0 <= gifts
    && (forall k :: k in delegations ==> 0 <= delegations[k].net && 0 <= delegations[k].cpu)
    && (forall n :: n in refunds ==> 0 <= refunds[n].net && 0 <= refunds[n].cpu)
  }

  /** NET due to account r: what is delegated to it and what is rented for it. */
  ghost function NetDue(delegations: map<(Name, Name), Delegation>, net: map<int, Loan>, r: Name): int {
    Sum(delegations, NetTo(r)) + Sum(net, RentedTo(r))
  }

  ghost function CpuDue(delegations: map<(Name, Name), Delegation>, cpu: map<int, Loan>, r: Name): int {
    Sum(delegations, CpuTo(r)) + Sum(cpu, RentedTo(r))
  }

  /** A change not entered yet, of the resources of one account. */
  datatype Delta = Delta(who: Name, net: int, cpu: int)

  /** The userres totals are what is due, but for the change `d` not entered yet. */
  ghost predicate TotalsBook(totals: map<Name, Resources>, delegations: map<(Name, Name), Delegation>,
                             cpu: map<int, Loan>, net: map<int, Loan>, d: Delta) {
    forall r :: TotalsRight(totals, delegations, cpu, net, r, d)
  }

  ghost predicate TotalsRight(totals: map<Name, Resources>, delegations: map<(Name, Name), Delegation>,
                              cpu: map<int, Loan>, net: map<int, Loan>, r: Name, d: Delta) {
    && ResourcesOf(totals, r).net + (if r == d.who then d.net else 0) == NetDue(delegations, net, r)
    && ResourcesOf(totals, r).cpu + (if r == d.who then d.cpu else 0) == CpuDue(delegations, cpu, r)
  }

  /** All books together, with what an action in progress has still to enter in three of them. */
  ghost predicate Books(s: State, rexGap: int, stakeGap: int, d: Delta) {
    && PoolBook(s.initialized, s.pool, s.cpuLoans, s.netLoans, s.balances)
    && TokenBook(AmountOf(s.tokens, REX_ACCOUNT), s.rexGifts, s.funds, s.cpuLoans, s.netLoans, s.pool.lendable, s.orders, rexGap)
    && OwnerBook(s.balances, s.orders, s.Seconds())
    && StakeBook(AmountOf(s.tokens, STAKE_ACCOUNT), s.stakeGifts, s.delegations, s.refunds, stakeGap)
    && TotalsBook(s.totals, s.delegations, s.cpuLoans, s.netLoans, d)
  }

  /** The invariant of every run. */
  ghost predicate Invariant(s: State) {
    Books(s, 0, 0, Delta(0, 0, 0))
  }

  // ---- the pool book

  lemma SwapLoans(initialized: bool, pool: Pool, cpu: map<int, Loan>, net: map<int, Loan>, balances: map<Name, Balance>)
    requires PoolBook(initialized, pool, cpu, net, balances)
    ensures PoolBook(initialized, pool, net, cpu, balances)
  {
    hide Sum;
  }

  /** Pool and balance move by the same amount of REX while the lent tokens stay. */
  lemma PoolBookRex(initialized: bool, pool: Pool, cpu: map<int, Loan>, net: map<int, Loan>, balances: map<Name, Balance>,
                    q: Pool, owner: Name, row: Balance)
    requires PoolBook(initialized, pool, cpu, net, balances) && Balanced(q)
    requires q.lent == pool.lent && q.loanNum == pool.loanNum
    requires q.rex - pool.rex == row.rex - Share(balances, Held, owner)
    ensures PoolBook(true, q, cpu, net, balances[owner := row])
  {
    hide Sum;
    SumWrite(balances, Held, owner, row);
  }

  /** Only fees, the rent or the name bid proceeds change. */
  lemma PoolBookPool(initialized: bool, pool: Pool, cpu: map<int, Loan>, net: map<int, Loan>, balances: map<Name, Balance>,
                     q: Pool)
    requires PoolBook(initialized, pool, cpu, net, balances) && Balanced(q) && (initialized || Unused(q))
    requires q.lent == pool.lent && q.loanNum == pool.loanNum && q.rex == pool.rex
    ensures PoolBook(initialized, q, cpu, net, balances)
  {
    hide Sum;
  }

  /** A loan row is written, and its stake is what was added to the lent tokens. */
  lemma PoolBookLoan(initialized: bool, pool: Pool, loans: map<int, Loan>, other: map<int, Loan>, balances: map<Name, Balance>,
                     q: Pool, k: int, loan: Loan)
    requires PoolBook(initialized, pool, loans, other, balances) && Balanced(q)
    requires 0 < loan.payment && 0 <= loan.balance && 0 < loan.staked && k <= q.loanNum && pool.loanNum <= q.loanNum
    requires q.lent - pool.lent == loan.staked - Share(loans, LoanStake, k) && q.rex == pool.rex
    ensures PoolBook(true, q, loans[k := loan], other, balances)
  {
    hide Sum;
    SumWrite(loans, LoanStake, k, loan);
  }

  lemma PoolBookClose(initialized: bool, pool: Pool, loans: map<int, Loan>, other: map<int, Loan>, balances: map<Name, Balance>,
                      q: Pool, k: int)
    requires PoolBook(initialized, pool, loans, other, balances) && Balanced(q) && k in loans
    requires q.lent == pool.lent - loans[k].staked && q.rex == pool.rex && q.loanNum == pool.loanNum
    ensures PoolBook(true, q, loans - {k}, other, balances)
  {
    hide Sum;
    SumErase(loans, LoanStake, k);
  }

  /** No loan stakes more than has been lent, and no owner holds more than there is. */
  lemma PoolBounds(initialized: bool, pool: Pool, cpu: map<int, Loan>, net: map<int, Loan>, balances: map<Name, Balance>,
                   k: int)
    requires PoolBook(initialized, pool, cpu, net, balances)
    ensures k in cpu ==> cpu[k].staked <= pool.lent
    ensures k in net ==> net[k].staked <= pool.lent
  {
    hide Sum;
    SumNonNeg(cpu, LoanStake);
    SumNonNeg(net, LoanStake);
    ShareAtMostSum(cpu, LoanStake, k);
    ShareAtMostSum(net, LoanStake, k);
  }

  lemma HeldBounds(balances: map<Name, Balance>, orders: map<Name, Order>, sec: int, n: Name)
    requires OwnerBook(balances, orders, sec) && n in balances
    ensures 0 <= balances[n].matured <= balances[n].rex <= Sum(balances, Held)
  {
    hide Sum;
    forall m | m in balances
      ensures 0 <= balances[m].matured <= Held(m, balances[m])
    {
      TotalNonNegative(balances[m].buckets);
    }
    ShareAtMostSum(balances, Held, n);
  }

  // ---- the token book of eosio.rex

  lemma TokenBookFund(held: int, gifts: int, funds: map<Name, int>, cpu: map<int, Loan>, net: map<int, Loan>,
                      lendable: int, orders: map<Name, Order>, gap: int, n: Name, v: int)
    requires TokenBook(held, gifts, funds, cpu, net, lendable, orders, gap) && 0 <= v
    ensures TokenBook(held, gifts, funds[n := v], cpu, net, lendable, orders, gap + AmountOf(funds, n) - v)
  {
    hide Sum;
    SumWrite(funds, Amount, n, v);
  }

  lemma TokenBookEraseFund(held: int, gifts: int, funds: map<Name, int>, cpu: map<int, Loan>, net: map<int, Loan>,
                           lendable: int, orders: map<Name, Order>, gap: int, n: Name)
    requires TokenBook(held, gifts, funds, cpu, net, lendable, orders, gap) && n in funds
    ensures TokenBook(held, gifts, funds - {n}, cpu, net, lendable, orders, gap + funds[n])
  {
    hide Sum;
    SumErase(funds, Amount, n);
  }

  lemma TokenBookSwap(held: int, gifts: int, funds: map<Name, int>, cpu: map<int, Loan>, net: map<int, Loan>,
                      lendable: int, orders: map<Name, Order>, gap: int)
    requires TokenBook(held, gifts, funds, cpu, net, lendable, orders, gap)
    ensures TokenBook(held, gifts, funds, net, cpu, lendable, orders, gap)
  {
    hide Sum;
  }

  lemma TokenBookLoan(held: int, gifts: int, funds: map<Name, int>, loans: map<int, Loan>, other: map<int, Loan>,
                      lendable: int, orders: map<Name, Order>, gap: int, k: int, loan: Loan)
    requires TokenBook(held, gifts, funds, loans, other, lendable, orders, gap) && 0 <= loan.balance
    ensures TokenBook(held, gifts, funds, loans[k := loan], other, lendable, orders,
                      gap + Share(loans, LoanFund, k) - loan.balance)
  {
    hide Sum;
    SumWrite(loans, LoanFund, k, loan);
  }

  lemma TokenBookClose(held: int, gifts: int, funds: map<Name, int>, loans: map<int, Loan>, other: map<int, Loan>,
                       lendable: int, orders: map<Name, Order>, gap: int, k: int)
    requires TokenBook(held, gifts, funds, loans, other, lendable, orders, gap) && k in loans
    ensures TokenBook(held, gifts, funds, loans - {k}, other, lendable, orders, gap + loans[k].balance)
  {
    hide Sum;
    SumErase(loans, LoanFund, k);
  }

  lemma TokenBookOrder(held: int, gifts: int, funds: map<Name, int>, cpu: map<int, Loan>, net: map<int, Loan>,
                       lendable: int, orders: map<Name, Order>, gap: int, n: Name, order: Order)
    requires TokenBook(held, gifts, funds, cpu, net, lendable, orders, gap) && 0 <= Unclaimed(n, order)
    ensures TokenBook(held, gifts, funds, cpu, net, lendable, orders[n := order],
                      gap + Share(orders, Unclaimed, n) - Unclaimed(n, order))
  {
    hide Sum;
    SumWrite(orders, Unclaimed, n, order);
  }

  lemma TokenBookEraseOrder(held: int, gifts: int, funds: map<Name, int>, cpu: map<int, Loan>, net: map<int, Loan>,
                            lendable: int, orders: map<Name, Order>, gap: int, n: Name)
    requires TokenBook(held, gifts, funds, cpu, net, lendable, orders, gap) && n in orders
    ensures TokenBook(held, gifts, funds, cpu, net, lendable, orders - {n}, gap + Unclaimed(n, orders[n]))
  {
    hide Sum;
    SumErase(orders, Unclaimed, n);
  }

  /** Tokens arriving or leaving, and lendable tokens booked or written off. */
  lemma TokenBookShift(held: int, gifts: int, funds: map<Name, int>, cpu: map<int, Loan>, net: map<int, Loan>,
                       lendable: int, orders: map<Name, Order>, gap: int, held': int, gifts': int, lendable': int)
    requires TokenBook(held, gifts, funds, cpu, net, lendable, orders, gap) && 0 <= lendable' && 0 <= gifts'
    ensures TokenBook(held', gifts', funds, cpu, net, lendable', orders,
                      gap + (held' - held) - (gifts' - gifts) - (lendable' - lendable))
  {
    hide Sum;
  }

  /** A fund can always be paid out of what eosio.rex holds, and so can what is in transit. */
  lemma FundCovered(held: int, gifts: int, funds: map<Name, int>, cpu: map<int, Loan>, net: map<int, Loan>,
                    lendable: int, orders: map<Name, Order>, gap: int)
    requires TokenBook(held, gifts, funds, cpu, net, lendable, orders, gap)
    ensures gap <= held
  {
    hide Sum;
    SumNonNeg(funds, Amount);
    SumNonNeg(cpu, LoanFund);
    SumNonNeg(net, LoanFund);
    SumNonNeg(orders, Unclaimed);
  }

  // ---- the stake book of eosio.stake

  lemma StakeBookDelegation(held: int, gifts: int, delegations: map<(Name, Name), Delegation>, refunds: map<Name, Refund>,
                            gap: int, k: (Name, Name), row: Delegation)
    requires StakeBook(held, gifts, delegations, refunds, gap) && 0 <= row.net && 0 <= row.cpu
    ensures StakeBook(held, gifts, WithDelegation(delegations, k, row), refunds,
                      gap + Share(delegations, Delegated, k) - (row.net + row.cpu))
  {
    hide Sum;
    SumWrite(delegations, Delegated, k, row);
    if k in delegations {
      SumErase(delegations, Delegated, k);
    } else {
      assert delegations - {k} == delegations;
    }
  }

  lemma StakeBookRefund(held: int, gifts: int, delegations: map<(Name, Name), Delegation>, refunds: map<Name, Refund>,
                        gap: int, n: Name, row: Refund)
    requires StakeBook(held, gifts, delegations, refunds, gap) && 0 <= row.net && 0 <= row.cpu
    ensures StakeBook(held, gifts, delegations, refunds[n := row], gap + Share(refunds, Refundable, n) - (row.net + row.cpu))
  {
    hide Sum;
    SumWrite(refunds, Refundable, n, row);
  }

  lemma StakeBookEraseRefund(held: int, gifts: int, delegations: map<(Name, Name), Delegation>, refunds: map<Name, Refund>,
                             gap: int, n: Name)
    requires StakeBook(held, gifts, delegations, refunds, gap) && n in refunds
    ensures StakeBook(held, gifts, delegations, refunds - {n}, gap + refunds[n].net + refunds[n].cpu)
    ensures refunds[n].net + refunds[n].cpu + gap <= held
  {
    hide Sum;
    SumErase(refunds, Refundable, n);
    ShareAtMostSum(refunds, Refundable, n);
    SumNonNeg(delegations, Delegated);
  }

  lemma StakeCovered(held: int, gifts: int, delegations: map<(Name, Name), Delegation>, refunds: map<Name, Refund>, gap: int)
    requires StakeBook(held, gifts, delegations, refunds, gap)
    ensures gap <= held
  {
    hide Sum;
    SumNonNeg(delegations, Delegated);
    SumNonNeg(refunds, Refundable);
  }

  // ---- the totals

  /** Writing a delegation leaves its change to be entered for the receiver. */
  lemma TotalsBookDelegation(totals: map<Name, Resources>, delegations: map<(Name, Name), Delegation>,
                             cpu: map<int, Loan>, net: map<int, Loan>, k: (Name, Name), row: Delegation)
    requires TotalsBook(totals, delegations, cpu, net, Delta(0, 0, 0))
    ensures var was := DelegationOf(delegations, k);
      TotalsBook(totals, WithDelegation(delegations, k, row), cpu, net, Delta(k.1, row.net - was.net, row.cpu - was.cpu))
  {
    hide Sum;
    var was := DelegationOf(delegations, k);
    var d := Delta(k.1, row.net - was.net, row.cpu - was.cpu);
    forall r
      ensures TotalsRight(totals, WithDelegation(delegations, k, row), cpu, net, r, d)
    {
      assert TotalsRight(totals, delegations, cpu, net, r, Delta(0, 0, 0));
      SumWrite(delegations, NetTo(r), k, row);
      SumWrite(delegations, CpuTo(r), k, row);
      if k in delegations {
        SumErase(delegations, NetTo(r), k);
        SumErase(delegations, CpuTo(r), k);
      } else {
        assert delegations - {k} == delegations;
      }
    }
  }

  predicate SameStake(totals: map<Name, Resources>, totals': map<Name, Resources>, r: Name) {
    ResourcesOf(totals', r).net == ResourcesOf(totals, r).net && ResourcesOf(totals', r).cpu == ResourcesOf(totals, r).cpu
  }

  /** Entering the change. */
  lemma TotalsBookEnter(totals: map<Name, Resources>, delegations: map<(Name, Name), Delegation>,
                        cpu: map<int, Loan>, net: map<int, Loan>, d: Delta, totals': map<Name, Resources>)
    requires TotalsBook(totals, delegations, cpu, net, d)
    requires ResourcesOf(totals', d.who).net == ResourcesOf(totals, d.who).net + d.net
    requires ResourcesOf(totals', d.who).cpu == ResourcesOf(totals, d.who).cpu + d.cpu
    requires forall r :: r != d.who ==> SameStake(totals, totals', r)
    ensures TotalsBook(totals', delegations, cpu, net, Delta(0, 0, 0))
  {
    hide NetDue, CpuDue;
    forall r
      ensures TotalsRight(totals', delegations, cpu, net, r, Delta(0, 0, 0))
    {
      assert TotalsRight(totals, delegations, cpu, net, r, d);
      assert r != d.who ==> SameStake(totals, totals', r);
    }
  }

  lemma RentedNonNegative(loans: map<int, Loan>, loanNum: int, r: Name)
    requires LoansSound(loans, loanNum)
    ensures 0 <= Sum(loans, RentedTo(r))
  {
    hide Sum;
    var f := RentedTo(r);
    forall k | k in loans
      ensures 0 <= f(k, loans[k])
    {
      assert 0 < loans[k].staked;
    }
    SumNonNeg(loans, f);
  }

  /** What is due to an account is never negative, so entering a change never makes its total negative. */
  lemma DueNonNegative(delegations: map<(Name, Name), Delegation>, refunds: map<Name, Refund>, held: int, gifts: int, gap: int,
                       initialized: bool, pool: Pool, cpu: map<int, Loan>, net: map<int, Loan>, balances: map<Name, Balance>,
                       r: Name)
    requires StakeBook(held, gifts, delegations, refunds, gap)
    requires PoolBook(initialized, pool, cpu, net, balances)
    ensures 0 <= NetDue(delegations, net, r) && 0 <= CpuDue(delegations, cpu, r)
  {
    hide Sum;
    SumNonNeg(delegations, NetTo(r));
    SumNonNeg(delegations, CpuTo(r));
    RentedNonNegative(net, pool.loanNum, r);
    RentedNonNegative(cpu, pool.loanNum, r);
  }

  /** Writing a loan leaves its stake to be entered for its receiver. */
  lemma TotalsBookLoan(totals: map<Name, Resources>, delegations: map<(Name, Name), Delegation>,
                       cpu: map<int, Loan>, net: map<int, Loan>, res: Resource, k: int, loan: Loan)
    requires TotalsBook(totals, delegations, cpu, net, Delta(0, 0, 0))
    requires var loans := if res.Cpu? then cpu else net; k in loans ==> loans[k].receiver == loan.receiver
    ensures var loans := if res.Cpu? then cpu else net;
      var change := loan.staked - Share(loans, LoanStake, k);
      TotalsBook(totals, delegations, if res.Cpu? then cpu[k := loan] else cpu, if res.Net? then net[k := loan] else net,
                 if res.Cpu? then Delta(loan.receiver, 0, change) else Delta(loan.receiver, change, 0))
  {
    hide Sum;
    var loans := if res.Cpu? then cpu else net;
    var change := loan.staked - Share(loans, LoanStake, k);
    var d := if res.Cpu? then Delta(loan.receiver, 0, change) else Delta(loan.receiver, change, 0);
    var cpu' := if res.Cpu? then cpu[k := loan] else cpu;
    var net' := if res.Net? then net[k := loan] else net;
    forall r
      ensures TotalsRight(totals, delegations, cpu', net', r, d)
    {
      assert TotalsRight(totals, delegations, cpu, net, r, Delta(0, 0, 0));
      SumWrite(loans, RentedTo(r), k, loan);
    }
  }

  lemma TotalsBookClose(totals: map<Name, Resources>, delegations: map<(Name, Name), Delegation>,
                        cpu: map<int, Loan>, net: map<int, Loan>, res: Resource, k: int)
    requires TotalsBook(totals, delegations, cpu, net, Delta(0, 0, 0))
    requires k in (if res.Cpu? then cpu else net)
    ensures var loan := (if res.Cpu? then cpu else net)[k];
      TotalsBook(totals, delegations, if res.Cpu? then cpu - {k} else cpu, if res.Net? then net - {k} else net,
                 if res.Cpu? then Delta(loan.receiver, 0, -loan.staked) else Delta(loan.receiver, -loan.staked, 0))
  {
    hide Sum;
    var loans := if res.Cpu? then cpu else net;
    var loan := loans[k];
    var d := if res.Cpu? then Delta(loan.receiver, 0, -loan.staked) else Delta(loan.receiver, -loan.staked, 0);
    var cpu' := if res.Cpu? then cpu - {k} else cpu;
    var net' := if res.Net? then net - {k} else net;
    forall r
      ensures TotalsRight(totals, delegations, cpu', net', r, d)
    {
      assert TotalsRight(totals, delegations, cpu, net, r, Delta(0, 0, 0));
      SumErase(loans, RentedTo(r), k);
    }
  }
}
