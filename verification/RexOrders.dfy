/** What buying and selling REX do: who gets what, and when an order is queued, filled or dropped. */
module RexOrders {
  import opened Outcomes
  import opened RexMaturities
  import opened RexPool
  import opened SystemTables
  import opened RexLedger
  import opened SystemBooks
  import opened RexInvariant
  import opened RexActionsKept
  import opened BandwidthEffects
  import opened RexEffects

  /** The REX an owner has in the queue. */
  function Queued(s: State, n: Name): int {
    if n in s.orders && s.orders[n].isOpen then s.orders[n].requested else 0
  }

  /** What an owner has to claim from an order that was filled. */
  function Claimable(s: State, n: Name): int {
    if n in s.orders && !s.orders[n].isOpen then s.orders[n].proceeds else 0
  }

  /** The owner's filled order is gone, and no other order has changed. */
  ghost predicate OrderClaimed(s: State, t: State, owner: Name) {
    && OtherOrders(s, t, owner)
    && (owner in t.orders <==> owner in s.orders && s.orders[owner].isOpen)
    && (owner in t.orders ==> t.orders[owner] == s.orders[owner])
  }

  lemma ClaimedOrders(s: State, t: State, owner: Name)
    requires t.orders == WithoutFilled(s.orders, owner)
    ensures OrderClaimed(s, t, owner)
  {
  }

  lemma ClaimedFunds(s: State, t: State, owner: Name, toFund: int)
    requires t.funds == Funded(s.funds, owner, toFund) && 0 <= toFund
    ensures FundChange(s, t, owner, toFund)
  {
  }

  /** update_rex_account puts the proceeds, and those of a filled order, into the owner's fund. */
  lemma UpdateExactly(s: State, owner: Name, proceeds: int)
    requires 0 <= proceeds + Claimable(s, owner)
    ensures var (t, pending) := UpdateRexAccount(s, owner, proceeds);
      && t == s.(funds := t.funds, orders := t.orders) && pending == Queued(s, owner)
      && FundChange(s, t, owner, proceeds + Claimable(s, owner)) && OrderClaimed(s, t, owner)
  {
    hide OrderClaimed, FundChange, WithoutFilled, Funded;
    var t := UpdateRexAccount(s, owner, proceeds).0;
    ClaimedOrders(s, t, owner);
    ClaimedFunds(s, t, owner, proceeds + Claimable(s, owner));
  }

  lemma ClaimableNonNegative(s: State, owner: Name)
    requires Invariant(s)
    ensures 0 <= Claimable(s, owner)
  {
    hide Books;
    if HasFilledOrder(s.orders, owner) {
      UnclaimedNonNegative(s, 0, 0, Delta(0, 0, 0), owner);
    }
  }

  // ---- selling

  /** A sale is made at once when at least a fifth of the lent tokens stays unlent. */
  predicate SellsNow(p: Pool, proceeds: int) {
    p.lent < 5 * (p.unlent - proceeds + 1)
  }

  /** Everything a sale made at once has changed. */
  ghost predicate Sold(s: State, t: State, from: Name, rex: int, proceeds: int)
    requires from in s.balances
  {
    && t == s.(pool := t.pool, balances := t.balances, funds := t.funds, orders := t.orders)
    && t.pool == s.pool.(rex := s.pool.rex - rex, lendable := s.pool.lendable - proceeds, unlent := s.pool.unlent - proceeds)
    && OtherRows(s, t, from) && from in t.balances
    && t.balances[from] == s.balances[from].(rex := s.balances[from].rex - rex, matured := s.balances[from].matured - rex)
    && FundChange(s, t, from, proceeds + Claimable(s, from)) && OrderClaimed(s, t, from)
  }

  /** Everything a sale that has to wait has changed: it adds to the order in the queue, which keeps its place. */
  ghost predicate Waits(s: State, t: State, from: Name, rex: int) {
    && t == s.(funds := t.funds, orders := t.orders)
    && FundChange(s, t, from, Claimable(s, from)) && OtherOrders(s, t, from) && from in t.orders
    && t.orders[from] == if from in s.orders && s.orders[from].isOpen
                         then s.orders[from].(requested := s.orders[from].requested + rex)
                         else Order(rex, 0, s.now, true)
  }

  /**
   * A sale needs matured REX beyond what its owner has in the queue. It is made at once, at what the REX is worth, when
   * that leaves enough unlent tokens, and refused when it is worth nothing; otherwise it waits, except for b1.
   */
  lemma SellMaturedExactly(s: State, from: Name, rex: int, proceeds: int)
    requires Invariant(s) && from in s.balances && 0 < rex
    requires rex <= s.balances[from].matured ==> Worth(s.pool, rex, proceeds)
    ensures SellMatured(s, from, rex).Ok? <==>
      && rex + Queued(s, from) <= s.balances[from].matured
      && if SellsNow(s.pool, proceeds) then 0 < proceeds else from != 4053239664633446400
    ensures SellMatured(s, from, rex).Ok? ==>
      var t := SellMatured(s, from, rex).value;
      if SellsNow(s.pool, proceeds) then Sold(s, t, from, rex, proceeds) else Waits(s, t, from, rex)
  {
    hide Books, Sound, Clock, Balanced, RexPool.FillOrder, Sold, Waits, UpdateRexAccount, Enqueue;
    RowFacts(s, from, 0, 0, Delta(0, 0, 0));
    QueuedNonNegative(s, from);
    if rex <= s.balances[from].matured {
      FillOrderExactly(s.pool, rex, proceeds);
      if SellsNow(s.pool, proceeds) {
        SoldExactly(s, from, rex, proceeds);
      } else {
        WaitsExactly(s, from, rex);
      }
    }
  }

  lemma QueuedNonNegative(s: State, n: Name)
    requires Invariant(s) && n in s.balances
    ensures 0 <= Queued(s, n)
  {
    hide Books;
    PendingCovered(s, 0, 0, Delta(0, 0, 0), n);
  }

  lemma SoldExactly(s: State, from: Name, rex: int, proceeds: int)
    requires Invariant(s) && from in s.balances && rex <= s.balances[from].matured
    requires RexPool.FillOrder(s.pool, rex) == Ok(Filled(proceeds, s.pool.(rex := s.pool.rex - rex,
                                                  lendable := s.pool.lendable - proceeds, unlent := s.pool.unlent - proceeds)))
    requires 0 <= proceeds
    ensures SellMatured(s, from, rex).Ok? <==> rex + Queued(s, from) <= s.balances[from].matured && 0 < proceeds
    ensures SellMatured(s, from, rex).Ok? ==> Sold(s, SellMatured(s, from, rex).value, from, rex, proceeds)
  {
    hide Invariant, RexPool.FillOrder, UpdateRexAccount, OtherRows, FundChange, OrderClaimed, Debit;
    ClaimableNonNegative(s, from);
    var pool := s.pool.(rex := s.pool.rex - rex, lendable := s.pool.lendable - proceeds, unlent := s.pool.unlent - proceeds);
    var b := WithRow(s.(pool := pool), from, Debit(s.balances[from], rex));
    DebitedRow(s, from, rex, pool);
    UpdateExactly(b, from, proceeds);
    var t := UpdateRexAccount(b, from, proceeds).0;
    SameFunds(s, b, t, from, proceeds + Claimable(s, from));
    SameClaim(s, b, t, from);
    RowsAfter(s, b, t, from);
  }

  lemma DebitedRow(s: State, from: Name, rex: int, pool: Pool)
    requires from in s.balances
    ensures var b := WithRow(s.(pool := pool), from, Debit(s.balances[from], rex));
      && b == s.(pool := pool, balances := b.balances) && OtherRows(s, b, from) && from in b.balances
      && b.balances[from] == s.balances[from].(rex := s.balances[from].rex - rex, matured := s.balances[from].matured - rex)
  {
  }

  lemma SameClaim(s: State, b: State, t: State, owner: Name)
    requires OrderClaimed(b, t, owner) && b.orders == s.orders
    ensures OrderClaimed(s, t, owner)
  {
  }

  lemma RowsAfter(s: State, b: State, t: State, owner: Name)
    requires OtherRows(s, b, owner) && t.balances == b.balances
    ensures OtherRows(s, t, owner)
  {
  }

  lemma WaitsExactly(s: State, from: Name, rex: int)
    requires Invariant(s) && from in s.balances && rex <= s.balances[from].matured
    requires RexPool.FillOrder(s.pool, rex) == Ok(Unfilled)
    ensures SellMatured(s, from, rex).Ok? <==> rex + Queued(s, from) <= s.balances[from].matured && from != 4053239664633446400
    ensures SellMatured(s, from, rex).Ok? ==> Waits(s, SellMatured(s, from, rex).value, from, rex)
  {
    hide Invariant, RexPool.FillOrder, UpdateRexAccount, FundChange;
    ClaimableNonNegative(s, from);
    UpdateExactly(s, from, 0);
    var a := UpdateRexAccount(s, from, 0).0;
    EnqueueExactly(a, from, rex);
    if Enqueue(a, from, rex).Ok? {
      SameFundsAfter(s, a, Enqueue(a, from, rex).value, from, Claimable(s, from));
    }
  }

  lemma EnqueueExactly(s: State, from: Name, rex: int)
    requires from in s.balances
    ensures Enqueue(s, from, rex).Ok? <==>
      from != 4053239664633446400
      && (if from in s.orders then s.orders[from].requested else 0) + rex <= s.balances[from].matured
    ensures Enqueue(s, from, rex).Ok? ==>
      var t := Enqueue(s, from, rex).value;
      && t == s.(orders := t.orders) && OtherOrders(s, t, from) && from in t.orders
      && t.orders[from] == if from in s.orders then s.orders[from].(requested := s.orders[from].requested + rex)
                           else Order(rex, 0, s.now, true)
  {
  }

  /** Only an order still in the queue can be cancelled, by its owner, and no other order goes with it. */
  lemma CancelRexOrderExactly(s: State, owner: Name)
    ensures CancelRexOrder(s, owner).Ok? <==> owner in s.orders && s.orders[owner].isOpen
    ensures CancelRexOrder(s, owner).Ok? ==>
      var t := CancelRexOrder(s, owner).value; t == s.(orders := t.orders) && owner !in t.orders && OtherOrders(s, t, owner)
  {
  }

  // ---- the queue

  /** Everything filling an order in the queue has changed: its proceeds are set aside for its owner to claim. */
  ghost predicate QueueFilled(s: State, t: State, owner: Name, proceeds: int)
    requires owner in s.orders && owner in s.balances
  {
    var order, row := s.orders[owner], s.balances[owner];
    && t == s.(pool := t.pool, orders := t.orders, balances := t.balances)
    && t.pool == s.pool.(rex := s.pool.rex - order.requested, lendable := s.pool.lendable - proceeds,
                         unlent := s.pool.unlent - proceeds)
    && OtherRows(s, t, owner) && owner in t.balances
    && t.balances[owner] == row.(rex := row.rex - order.requested, matured := row.matured - order.requested)
    && OtherOrders(s, t, owner) && owner in t.orders && t.orders[owner] == Order(order.requested, proceeds, order.time, false)
  }

  /** An order in the queue is filled exactly when that leaves enough unlent tokens, and otherwise stays as it is. */
  lemma FillQueuedExactly(s: State, owner: Name, proceeds: int)
    requires Invariant(s) && owner in s.orders && s.orders[owner].isOpen && Worth(s.pool, s.orders[owner].requested, proceeds)
    ensures owner in s.balances && FillQueued(s, owner).Ok?
    ensures var t := FillQueued(s, owner).value;
      if SellsNow(s.pool, proceeds) then QueueFilled(s, t, owner, proceeds) else t == s
  {
    hide Books, Sound, Clock, Balanced, RexPool.FillOrder, Worth;
    FillQueuedKeeps(s, owner);
    RowFacts(s, owner, 0, 0, Delta(0, 0, 0));
    PendingCovered(s, 0, 0, Delta(0, 0, 0), owner);
    FillOrderExactly(s.pool, s.orders[owner].requested, proceeds);
  }

  /** The order of o comes first in the queue after `after`: by time, and by name among equals. */
  predicate NextInQueue(orders: map<Name, Order>, after: (int, int), o: Name) {
    && o in orders && orders[o].isOpen && !Before((orders[o].time, o), after)
    && forall p :: p in orders && orders[p].isOpen && !Before((orders[p].time, p), after) ==>
         orders[o].time < orders[p].time || (orders[o].time == orders[p].time && o <= p)
  }

  /** runrex tries the orders in that order, each once. */
  lemma OldestFirst(s: State, after: (int, int), max: nat, o: Name)
    requires NextInQueue(s.orders, after, o) && max > 0 && FillQueued(s, o).Ok?
    ensures RunOrders(s, after, max) == RunOrders(FillQueued(s, o).value, (s.orders[o].time, o), max - 1)
  {
    hide FillQueued;
    var keys := OpenAfter(s.orders, after);
    assert (s.orders[o].time, o) in keys;
    var least := Least(keys);
    assert least.1 in s.orders && least.0 == s.orders[least.1].time;
    assert Before(least, (s.orders[o].time, o));
  }

  // ---- buying

  /** A purchase adds what it receives to the owner's REX, and takes nothing from anybody. */
  lemma BuyExactly(s: State, owner: Name, payment: int)
    requires Buy(s, owner, payment).Ok?
    ensures var t, (q, received) := Buy(s, owner, payment).value, AddToPool(s.pool, s.initialized, payment).value;
      && t == s.(initialized := true, pool := q, balances := t.balances) && OtherRows(s, t, owner) && owner in t.balances
      && t.balances[owner].rex == (if owner in s.balances then s.balances[owner].rex else 0) + received
  {
    hide AddToPool, Credit;
    var row := if owner in s.balances then s.balances[owner] else Balance(0, 0, []);
    CreditFiled(row, AddToPool(s.pool, s.initialized, payment).value.1, s.Seconds());
  }

  /** The part of unstaketorex that takes the delegation: what is delegated, and no more. */
  lemma UndelegateForRexExactly(s: State, owner: Name, receiver: Name, fromNet: int, fromCpu: int)
    ensures Undelegate(s, owner, receiver, fromNet, fromCpu).Ok? <==>
      (owner, receiver) in s.delegations
      && fromNet <= s.delegations[(owner, receiver)].net && fromCpu <= s.delegations[(owner, receiver)].cpu
    ensures Undelegate(s, owner, receiver, fromNet, fromCpu).Ok? ==>
      var t := Undelegate(s, owner, receiver, fromNet, fromCpu).value;
      t == s.(delegations := t.delegations) && Delegates(s, t, owner, receiver, -fromNet, -fromCpu)
  {
  }

  // ---- the pool's own actions

  /** setrex sets the rent balance, and with it the price of loans, to what is asked. */
  lemma SetRexExactly(s: State, balance: int)
    ensures SetRex(s, balance).Ok? <==> s.initialized && 0 < balance
    ensures SetRex(s, balance).Ok? ==> SetRex(s, balance).value == s.(pool := s.pool.(rent := balance))
  {
  }

  /** The bid of a closed name auction is set aside for REX when anyone holds REX, and otherwise not. */
  lemma ChannelNamebidExactly(s: State, highestBid: int)
    ensures s.initialized && s.pool.rex > 0 ==>
      ChannelNamebid(s, highestBid) == s.(pool := s.pool.(namebid := s.pool.namebid + highestBid))
    ensures !s.initialized || s.pool.rex <= 0 ==> ChannelNamebid(s, highestBid) == s
  {
  }

  /** What has been set aside then enters the unlent tokens, out of eosio.names. */
  lemma ChannelNamebidsExactly(s: State)
    requires s.initialized && s.pool.rex > 0 && s.pool.namebid > 0
    ensures ChannelNamebids(s).Ok? <==> s.pool.namebid <= AmountOf(s.tokens, NAMES_ACCOUNT)
    ensures ChannelNamebids(s).Ok? ==>
      var t := ChannelNamebids(s).value;
      && t == s.(pool := t.pool, tokens := t.tokens)
      && t.pool == s.pool.(unlent := s.pool.unlent + s.pool.namebid, lendable := s.pool.lendable + s.pool.namebid, namebid := 0)
      && AmountOf(t.tokens, NAMES_ACCOUNT) == AmountOf(s.tokens, NAMES_ACCOUNT) - s.pool.namebid
      && AmountOf(t.tokens, REX_ACCOUNT) == AmountOf(s.tokens, REX_ACCOUNT) + s.pool.namebid
  {
    hide Transfer;
    TransferExactly(s.(pool := AddFee(s.pool, s.pool.namebid)), NAMES_ACCOUNT, REX_ACCOUNT, s.pool.namebid);
  }

  // ---- closing

  /** An account can be closed exactly when it has no REX, and nothing is lost to its fund. */
  lemma CloseRowsExactly(s: State, owner: Name)
    requires Invariant(s)
    ensures CloseRows(s, owner).Ok? <==> (owner in s.balances ==> s.balances[owner].rex == 0)
    ensures CloseRows(s, owner).Ok? ==>
      var t := CloseRows(s, owner).value;
      && FundChange(s, t, owner, Claimable(s, owner)) && OrderClaimed(s, t, owner)
      && OtherRows(s, t, owner) && owner !in t.balances
  {
    hide Invariant, UpdateRexAccount, FundChange, OrderClaimed, NoLoansOf, WithoutFund;
    ClaimableNonNegative(s, owner);
    UpdateExactly(s, owner, 0);
    var a := UpdateRexAccount(s, owner, 0).0;
    EmptyFundGone(a, owner);
    if CloseRows(s, owner).Ok? {
      var t := CloseRows(s, owner).value;
      SameFundsAfter(a, WithoutFund(a, owner), t, owner, 0);
      SameFundsTwice(s, a, t, owner, Claimable(s, owner));
      SameOrdersAfter(s, a, t, owner);
    }
  }

  lemma EmptyFundGone(s: State, owner: Name)
    ensures var t := WithoutFund(s, owner); t == s.(funds := t.funds) && FundChange(s, t, owner, 0)
  {
    hide NoLoansOf;
  }

  lemma SameFundsTwice(s: State, a: State, t: State, owner: Name, change: int)
    requires FundChange(s, a, owner, change) && FundChange(a, t, owner, 0)
    ensures FundChange(s, t, owner, change)
  {
  }

  lemma SameOrdersAfter(s: State, a: State, t: State, owner: Name)
    requires OrderClaimed(s, a, owner) && t.orders == a.orders
    ensures OrderClaimed(s, t, owner)
  {
  }

  // ---- the actions on an owner's row, after runrex

  /** sellrex counts what has matured by now, whether or not it has been taken out of its bucket. */
  lemma SellRexExactly(s: State, from: Name, rex: int, proceeds: int)
    requires Invariant(s) && RunRex(s, 2).Ok?
    requires var run := RunRex(s, 2).value;
      from in run.balances && 0 < rex <= SellableAt(run.balances[from], s.Seconds()) ==> Worth(run.pool, rex, proceeds)
    ensures var run := RunRex(s, 2).value;
      SellRex(s, from, rex).Ok? <==>
      && 0 < rex && from in run.balances && rex + Queued(run, from) <= SellableAt(run.balances[from], s.Seconds())
      && if SellsNow(run.pool, proceeds) then 0 < proceeds else from != 4053239664633446400
    ensures SellRex(s, from, rex).Ok? ==>
      var a, t := WithMatured(RunRex(s, 2).value, from), SellRex(s, from, rex).value;
      from in a.balances && if SellsNow(a.pool, proceeds) then Sold(a, t, from, rex, proceeds) else Waits(a, t, from, rex)
  {
    hide Books, Kept, Sound, Clock, Balanced, RunRex, SellMatured, Mature, SellableAt, Worth, SellsNow, Sold, Waits;
    var run := RunRex(s, 2).value;
    RunRexKeeps(s, 2);
    KeptHasBooks(s, run, 0, 0, Delta(0, 0, 0));
    if from in run.balances && 0 < rex {
      MaturedKeeps(run, from);
      var a := WithMatured(run, from);
      KeptHasBooks(run, a, 0, 0, Delta(0, 0, 0));
      MaturedRow(run, from);
      SellMaturedExactly(a, from, rex, proceeds);
    }
  }

  /** What has matured by now, all of it taken out of the buckets. */
  lemma MaturedRow(s: State, owner: Name)
    requires Invariant(s) && owner in s.balances
    ensures var t := WithMatured(s, owner);
      && t == s.(balances := t.balances) && OtherRows(s, t, owner) && owner in t.balances
      && t.balances[owner].rex == s.balances[owner].rex
      && t.balances[owner].matured == SellableAt(s.balances[owner], s.Seconds())
  {
    hide Books, Sound, Plain, Clock, Balanced, Mature, Due;
    RowFacts(s, owner, 0, 0, Delta(0, 0, 0));
    MatureSound(s.balances[owner], s.Seconds(), 0);
  }

  /** updaterex pays out what has been sold and takes in what has matured. */
  lemma UpdateRexExactly(s: State, owner: Name)
    requires Invariant(s) && RunRex(s, 2).Ok?
    ensures UpdateRex(s, owner).Ok? <==> owner in RunRex(s, 2).value.balances
    ensures UpdateRex(s, owner).Ok? ==>
      var run, t := RunRex(s, 2).value, UpdateRex(s, owner).value;
      && OtherRows(run, t, owner) && owner in t.balances && t.pool == run.pool
      && t.balances[owner].matured == SellableAt(run.balances[owner], s.Seconds())
      && FundChange(run, t, owner, Claimable(run, owner)) && OrderClaimed(run, t, owner)
  {
    hide Books, Kept, Balanced, RunRex, UpdateRexAccount, WithMatured, SellableAt, OtherRows, FundChange, OrderClaimed;
    var run := RunRex(s, 2).value;
    RunRexKeeps(s, 2);
    KeptHasBooks(s, run, 0, 0, Delta(0, 0, 0));
    ClaimableNonNegative(run, owner);
    UpdateExactly(run, owner, 0);
    var a := UpdateRexAccount(run, owner, 0).0;
    if owner in run.balances {
      RunUpdate(s, owner);
      KeptHasBooks(s, a, 0, 0, Delta(0, 0, 0));
      MaturedRow(a, owner);
      var t := WithMatured(a, owner);
      SameFundsAfter(run, a, t, owner, Claimable(run, owner));
      SameOrdersAfter(run, a, t, owner);
      RowsFrom(run, a, t, owner);
    }
  }

  lemma RowsFrom(s: State, a: State, t: State, owner: Name)
    requires OtherRows(a, t, owner) && a.balances == s.balances
    ensures OtherRows(s, t, owner)
  {
  }

  /** The row of an owner and the REX it has in the queue, as the last three actions find them. */
  lemma FoundRow(s: State, owner: Name)
    requires Invariant(s) && RunRex(s, 2).Ok? && owner in RunRex(s, 2).value.balances
    ensures var run := RunRex(s, 2).value;
      var (a, pending) := UpdateRexAccount(run, owner, 0);
      && a.balances == run.balances && pending == Queued(run, owner) && a.now == s.now && run.now == s.now
      && Sound(run.balances[owner], s.Seconds(), 0) && Clock(s.Seconds()) && 0 <= pending <= run.balances[owner].matured
  {
    hide Books, Kept, Sound, Clock, Balanced, RunRex, UpdateRexAccount, FundChange, OrderClaimed;
    var run := RunRex(s, 2).value;
    RunRexKeeps(s, 2);
    KeptHasBooks(s, run, 0, 0, Delta(0, 0, 0));
    ClaimableNonNegative(run, owner);
    UpdateExactly(run, owner, 0);
    RowFacts(run, owner, 0, 0, Delta(0, 0, 0));
    PendingCovered(run, 0, 0, Delta(0, 0, 0), owner);
  }

  /** consolidate leaves only what is in the queue sellable, and the owner what it had. */
  lemma ConsolidateRexExactly(s: State, owner: Name)
    requires Invariant(s) && RunRex(s, 2).Ok?
    ensures ConsolidateRex(s, owner).Ok? <==> owner in RunRex(s, 2).value.balances
    ensures ConsolidateRex(s, owner).Ok? ==>
      var run, t := RunRex(s, 2).value, ConsolidateRex(s, owner).value;
      && OtherRows(run, t, owner) && owner in t.balances && t.balances[owner].rex == run.balances[owner].rex
      && t.balances[owner].matured == Queued(run, owner) && Savings(t.balances[owner]) == Savings(run.balances[owner])
  {
    hide Books, Sound, Clock, RunRex, UpdateRexAccount, Consolidate, Savings;
    if owner in RunRex(s, 2).value.balances {
      FoundRow(s, owner);
      var run := RunRex(s, 2).value;
      ConsolidateSound(run.balances[owner], Queued(run, owner), s.Seconds());
    }
  }

  /** mvtosavings moves what is asked if that, the savings and what is in the queue fit the balance. */
  lemma MoveRexToSavingsExactly(s: State, owner: Name, rex: int)
    requires Invariant(s) && RunRex(s, 2).Ok?
    ensures var run := RunRex(s, 2).value;
      MoveRexToSavings(s, owner, rex).Ok? <==>
      owner in run.balances && 0 < rex && rex + Queued(run, owner) + Savings(run.balances[owner]) <= run.balances[owner].rex
    ensures MoveRexToSavings(s, owner, rex).Ok? ==>
      var run, t := RunRex(s, 2).value, MoveRexToSavings(s, owner, rex).value;
      && OtherRows(run, t, owner) && owner in t.balances && t.balances[owner].rex == run.balances[owner].rex
      && Savings(t.balances[owner]) == Savings(run.balances[owner]) + rex
  {
    hide Books, Sound, Clock, RunRex, UpdateRexAccount, MoveToSavings, Savings;
    if owner in RunRex(s, 2).value.balances && 0 < rex {
      FoundRow(s, owner);
      var run := RunRex(s, 2).value;
      MoveToSavingsSound(run.balances[owner], rex, Queued(run, owner), s.Seconds());
    }
  }

  /** mvfrsavings moves what is asked if the savings have it. */
  lemma MoveRexFromSavingsExactly(s: State, owner: Name, rex: int)
    requires Invariant(s) && RunRex(s, 2).Ok?
    ensures var run := RunRex(s, 2).value;
      MoveRexFromSavings(s, owner, rex).Ok? <==> owner in run.balances && 0 < rex <= Savings(run.balances[owner])
    ensures MoveRexFromSavings(s, owner, rex).Ok? ==>
      var run, t := RunRex(s, 2).value, MoveRexFromSavings(s, owner, rex).value;
      && OtherRows(run, t, owner) && owner in t.balances && t.balances[owner].rex == run.balances[owner].rex
      && Savings(t.balances[owner]) == Savings(run.balances[owner]) - rex
  {
    hide Books, Sound, Clock, RunRex, UpdateRexAccount, MoveFromSavings, Savings;
    if owner in RunRex(s, 2).value.balances && 0 < rex {
      FoundRow(s, owner);
      var run := RunRex(s, 2).value;
      MoveFromSavingsSound(run.balances[owner], rex, s.Seconds());
    }
  }
}
