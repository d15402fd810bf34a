/** What delegating, undelegating and refunding do, row by row, and how long a refund waits. */
module BandwidthEffects {
  import opened Outcomes
  import opened SystemTables
  import opened Bandwidth
  import SystemActions
  import opened SystemBooks
  import opened RexInvariant
  import opened RexActionsKept
  import opened BandwidthKept
  import SystemSafety
  import RexLocked

  function RefundNet(refunds: map<Name, Refund>, n: Name): int {
    if n in refunds then refunds[n].net else 0
  }

  function RefundCpu(refunds: map<Name, Refund>, n: Name): int {
    if n in refunds then refunds[n].cpu else 0
  }

  function AtLeastZero(x: int): int {
    if x < 0 then 0 else x
  }

  /** Only the refund row of n differs. */
  ghost predicate OthersRefunds(was: map<Name, Refund>, now: map<Name, Refund>, n: Name) {
    forall m :: m != n ==> (m in now <==> m in was) && (m in now ==> now[m] == was[m])
  }

  /**
   * A refund row takes stake taken back, and pays for stake put in as far as it goes, for NET and CPU apart. A row that
   * takes any waits from now; a row left with nothing goes.
   */
  lemma ChangeRefundExactly(s: State, from: Name, deltaNet: int, deltaCpu: int)
    requires 0 <= RefundNet(s.refunds, from) && 0 <= RefundCpu(s.refunds, from)
    ensures ChangeRefund(s, from, deltaNet, deltaCpu).Ok?
    ensures var (t, owed) := ChangeRefund(s, from, deltaNet, deltaCpu).value;
      && t == s.(refunds := t.refunds) && OthersRefunds(s.refunds, t.refunds, from)
      && RefundNet(t.refunds, from) == AtLeastZero(RefundNet(s.refunds, from) - deltaNet)
      && RefundCpu(t.refunds, from) == AtLeastZero(RefundCpu(s.refunds, from) - deltaCpu)
      && owed == AtLeastZero(deltaNet - RefundNet(s.refunds, from)) + AtLeastZero(deltaCpu - RefundCpu(s.refunds, from))
      && (from in t.refunds ==> t.refunds[from].net != 0 || t.refunds[from].cpu != 0 || t == s)
      && (from in t.refunds && (deltaNet < 0 || deltaCpu < 0) ==> t.refunds[from].time == s.Seconds())
      && (from in t.refunds && 0 <= deltaNet && 0 <= deltaCpu ==>
            from in s.refunds && t.refunds[from].time == s.refunds[from].time)
  {
    hide ChangeRefund;
    if from in s.refunds {
      RowChanged(s, from, deltaNet, deltaCpu);
    } else {
      RowStarted(s, from, deltaNet, deltaCpu);
    }
  }

  lemma SettleIs(refund: int, delta: int)
    requires 0 <= refund
    ensures Settle(refund, delta) == (AtLeastZero(refund - delta), AtLeastZero(delta - refund))
  {
  }

  lemma RowChanged(s: State, from: Name, deltaNet: int, deltaCpu: int)
    requires from in s.refunds && 0 <= s.refunds[from].net && 0 <= s.refunds[from].cpu
    ensures var row := s.refunds[from];
      var net, cpu := AtLeastZero(row.net - deltaNet), AtLeastZero(row.cpu - deltaCpu);
      var time := if deltaNet < 0 || deltaCpu < 0 then s.Seconds() else row.time;
      var refunds := if net == 0 && cpu == 0 then s.refunds - {from} else s.refunds[from := Refund(time, net, cpu)];
      ChangeRefund(s, from, deltaNet, deltaCpu)
      == Ok((s.(refunds := refunds), AtLeastZero(deltaNet - row.net) + AtLeastZero(deltaCpu - row.cpu)))
  {
    hide Settle, AtLeastZero;
    SettleIs(s.refunds[from].net, deltaNet);
    SettleIs(s.refunds[from].cpu, deltaCpu);
    NotNegative(s.refunds[from].net - deltaNet);
    NotNegative(s.refunds[from].cpu - deltaCpu);
  }

  lemma NotNegative(x: int)
    ensures 0 <= AtLeastZero(x)
  {
  }

  lemma RowStarted(s: State, from: Name, deltaNet: int, deltaCpu: int)
    requires from !in s.refunds
    ensures ChangeRefund(s, from, deltaNet, deltaCpu)
         == Ok((if deltaNet < 0 || deltaCpu < 0 then
                  s.(refunds := s.refunds[from := Refund(s.Seconds(), AtLeastZero(-deltaNet), AtLeastZero(-deltaCpu))])
                else s,
                AtLeastZero(deltaNet) + AtLeastZero(deltaCpu)))
  {
  }

  /** Only this delegation changes, and by this much. */
  ghost predicate Delegates(s: State, t: State, from: Name, receiver: Name, net: int, cpu: int) {
    forall k :: DelegationOf(t.delegations, k) ==
      var was := DelegationOf(s.delegations, k);
      if k == (from, receiver) then Delegation(was.net + net, was.cpu + cpu) else was
  }

  /** Only this account's NET and CPU change, and by this much. */
  ghost predicate Entitles(s: State, t: State, receiver: Name, net: int, cpu: int) {
    forall n :: ResourcesOf(t.totals, n) ==
      var was := ResourcesOf(s.totals, n);
      if n == receiver then Resources(was.net + net, was.cpu + cpu, was.ram) else was
  }

  lemma ChangeDelegationExactly(s: State, from: Name, receiver: Name, net: int, cpu: int)
    ensures ChangeDelegation(s, from, receiver, net, cpu).Ok? <==>
      var was := DelegationOf(s.delegations, (from, receiver)); 0 <= was.net + net && 0 <= was.cpu + cpu
    ensures ChangeDelegation(s, from, receiver, net, cpu).Ok? ==>
      var t := ChangeDelegation(s, from, receiver, net, cpu).value;
      t == s.(delegations := t.delegations) && Delegates(s, t, from, receiver, net, cpu)
  {
  }

  lemma ChangeTotalsExactly(s: State, receiver: Name, net: int, cpu: int)
    requires ChangeTotals(s, receiver, net, cpu).Ok?
    ensures var t := ChangeTotals(s, receiver, net, cpu).value;
      t == s.(totals := t.totals) && Entitles(s, t, receiver, net, cpu)
  {
  }

  // ---- undelegating

  /** Undelegating takes what is delegated, and no more; it all waits in the owner's refund, from now. */
  lemma UndelegateExactly(s: State, from: Name, receiver: Name, net: int, cpu: int)
    requires Invariant(s) && from != STAKE_ACCOUNT
    ensures UndelegateBandwidth(s, from, receiver, net, cpu).Ok? <==>
      var was := DelegationOf(s.delegations, (from, receiver));
      0 <= net <= was.net && 0 <= cpu <= was.cpu && 0 < net + cpu
    ensures UndelegateBandwidth(s, from, receiver, net, cpu).Ok? ==>
      var t := UndelegateBandwidth(s, from, receiver, net, cpu).value;
      && t == s.(delegations := t.delegations, totals := t.totals, refunds := t.refunds)
      && Delegates(s, t, from, receiver, -net, -cpu) && Entitles(s, t, receiver, -net, -cpu)
      && OthersRefunds(s.refunds, t.refunds, from)
      && from in t.refunds && t.refunds[from]
         == Refund(s.Seconds(), RefundNet(s.refunds, from) + net, RefundCpu(s.refunds, from) + cpu)
  {
    hide Books, Kept, ChangeDelegation, ChangeTotals, ChangeRefund, Delegates, Entitles, OthersRefunds, DelegationOf;
    ChangeDelegationExactly(s, from, receiver, -net, -cpu);
    var delegated := ChangeDelegation(s, from, receiver, -net, -cpu);
    if 0 <= net && 0 <= cpu && 0 < net + cpu && delegated.Ok? {
      var a := delegated.value;
      ChangeDelegationKeeps(s, from, receiver, -net, -cpu);
      KeptHasBooks(s, a, 0, net + cpu, Delta(receiver, -net, -cpu));
      ChangeTotalsKeeps(a, receiver, -net, -cpu, net + cpu);
      ChangeTotalsExactly(a, receiver, -net, -cpu);
      var b := ChangeTotals(a, receiver, -net, -cpu).value;
      RefundNonNegative(s, from);
      ChangeRefundExactly(b, from, -net, -cpu);
      var t := ChangeRefund(b, from, -net, -cpu).value.0;
      SameDelegations(s, a, t, from, receiver, -net, -cpu);
      SameTotals(s, a, b, t, receiver, -net, -cpu);
    }
  }

  lemma SameDelegations(s: State, a: State, b: State, from: Name, receiver: Name, net: int, cpu: int)
    requires Delegates(s, a, from, receiver, net, cpu) && b.delegations == a.delegations
    ensures Delegates(s, b, from, receiver, net, cpu)
  {
  }

  lemma SameTotals(s: State, a: State, b: State, t: State, receiver: Name, net: int, cpu: int)
    requires Entitles(a, b, receiver, net, cpu) && a.totals == s.totals && t.totals == b.totals
    ensures Entitles(s, t, receiver, net, cpu)
  {
  }

  lemma RefundNonNegative(s: State, n: Name)
    requires Invariant(s)
    ensures 0 <= RefundNet(s.refunds, n) && 0 <= RefundCpu(s.refunds, n)
  {
    hide Books;
    if n in s.refunds {
      RefundFacts(s, n, 0);
    }
  }

  // ---- delegating

  /** What the delegator has to pay: staking to itself uses up its own refund first. */
  function Owed(s: State, from: Name, receiver: Name, net: int, cpu: int, transfer: bool): int {
    if !transfer && from == receiver then
      AtLeastZero(net - RefundNet(s.refunds, from)) + AtLeastZero(cpu - RefundCpu(s.refunds, from))
    else net + cpu
  }

  /** eosio.stake gets this much of the payer's tokens, and nobody else's change. */
  ghost predicate Stakes(s: State, t: State, payer: Name, amount: int) {
    forall n :: AmountOf(t.tokens, n) ==
      AmountOf(s.tokens, n) + (if n == STAKE_ACCOUNT then amount else 0) - (if n == payer then amount else 0)
  }

  /** Everything a delegation that goes through has changed. */
  ghost predicate Delegated(s: State, t: State, payer: Name, from: Name, receiver: Name, net: int, cpu: int, owed: int) {
    && t == s.(delegations := t.delegations, totals := t.totals, refunds := t.refunds, tokens := t.tokens)
    && Delegates(s, t, from, receiver, net, cpu) && Entitles(s, t, receiver, net, cpu)
    && Stakes(s, t, payer, owed) && OthersRefunds(s.refunds, t.refunds, payer)
    && Requested(t.refunds, payer) == Requested(s.refunds, payer) - (net + cpu - owed)
  }

  /**
   * Delegating goes through exactly when the payer has what is owed. The delegation is the payer's, or with `transfer`
   * the receiver's own.
   */
  lemma DelegateExactly(s: State, payer: Name, receiver: Name, net: int, cpu: int, transfer: bool)
    requires Invariant(s) && payer != STAKE_ACCOUNT && payer != REX_ACCOUNT
    ensures var owed := Owed(s, payer, receiver, net, cpu, transfer);
      DelegateBandwidth(s, payer, receiver, net, cpu, transfer).Ok? <==>
      0 <= net && 0 <= cpu && 0 < net + cpu && !(transfer && payer == receiver) && (owed == 0 || owed <= AmountOf(s.tokens, payer))
    ensures DelegateBandwidth(s, payer, receiver, net, cpu, transfer).Ok? ==>
      Delegated(s, DelegateBandwidth(s, payer, receiver, net, cpu, transfer).value, payer,
                if transfer then receiver else payer, receiver, net, cpu, Owed(s, payer, receiver, net, cpu, transfer))
  {
    hide Books, ChangeBandwidth, Delegated, AtLeastZero;
    if 0 <= net && 0 <= cpu && 0 < net + cpu && !(transfer && payer == receiver) {
      if !transfer && payer == receiver {
        DelegateToSelf(s, payer, net, cpu);
      } else {
        DelegateToOther(s, payer, receiver, net, cpu, transfer);
      }
    }
  }

  lemma DelegateToSelf(s: State, payer: Name, net: int, cpu: int)
    requires Invariant(s) && payer != STAKE_ACCOUNT && payer != REX_ACCOUNT && 0 <= net && 0 <= cpu && 0 < net + cpu
    ensures var owed, out := Owed(s, payer, payer, net, cpu, false), ChangeBandwidth(s, payer, payer, net, cpu, false);
      && (out.Ok? <==> owed == 0 || owed <= AmountOf(s.tokens, payer))
      && (out.Ok? ==> Delegated(s, out.value, payer, payer, payer, net, cpu, owed))
  {
    hide Books, ChangeDelegation, ChangeTotals, ChangeRefund, Delegates, Entitles, OthersRefunds, Transfer, Stakes, AtLeastZero;
    RefundNonNegative(s, payer);
    var b := StakeEntered(s, payer, payer, net, cpu);
    ChangeRefundExactly(b, payer, net, cpu);
    var (c, owed) := ChangeRefund(b, payer, net, cpu).value;
    RefundUsed(s, c, payer, net, cpu, owed);
    PaidOrNot(s, b, c, payer, payer, net, cpu, payer, owed);
  }

  lemma DelegateToOther(s: State, payer: Name, receiver: Name, net: int, cpu: int, transfer: bool)
    requires Invariant(s) && payer != STAKE_ACCOUNT && payer != REX_ACCOUNT && 0 <= net && 0 <= cpu && 0 < net + cpu
    requires payer != receiver
    ensures var out := ChangeBandwidth(s, payer, receiver, net, cpu, transfer);
      && (out.Ok? <==> net + cpu <= AmountOf(s.tokens, payer))
      && (out.Ok? ==> Delegated(s, out.value, payer, if transfer then receiver else payer, receiver, net, cpu, net + cpu))
  {
    hide Books, ChangeDelegation, ChangeTotals, ChangeRefund, Delegates, Entitles, OthersRefunds, Transfer, Stakes;
    var from := if transfer then receiver else payer;
    var b := StakeEntered(s, from, receiver, net, cpu);
    SameRefunds(s.refunds, payer);
    PaidOrNot(s, b, b, from, receiver, net, cpu, payer, net + cpu);
  }

  lemma SameRefunds(refunds: map<Name, Refund>, n: Name)
    ensures OthersRefunds(refunds, refunds, n)
  {
  }

  /** What the refund gave is what need not be paid. */
  lemma RefundUsed(s: State, t: State, n: Name, net: int, cpu: int, owed: int)
    requires RefundNet(t.refunds, n) == AtLeastZero(RefundNet(s.refunds, n) - net)
    requires RefundCpu(t.refunds, n) == AtLeastZero(RefundCpu(s.refunds, n) - cpu)
    requires owed == AtLeastZero(net - RefundNet(s.refunds, n)) + AtLeastZero(cpu - RefundCpu(s.refunds, n))
    ensures 0 <= owed && Requested(t.refunds, n) == Requested(s.refunds, n) - (net + cpu - owed)
  {
  }

  /** The delegation and the account's resources, entered. */
  lemma StakeEntered(s: State, from: Name, receiver: Name, net: int, cpu: int) returns (b: State)
    requires Invariant(s) && 0 <= net && 0 <= cpu
    ensures ChangeDelegation(s, from, receiver, net, cpu).Ok?
    ensures ChangeTotals(ChangeDelegation(s, from, receiver, net, cpu).value, receiver, net, cpu) == Ok(b)
    ensures b == s.(delegations := b.delegations, totals := b.totals)
    ensures Delegates(s, b, from, receiver, net, cpu) && Entitles(s, b, receiver, net, cpu)
  {
    hide Books, Kept, ChangeDelegation, ChangeTotals, Delegates, Entitles, DelegationOf;
    ChangeDelegationExactly(s, from, receiver, net, cpu);
    DelegationNonNegative(s, from, receiver);
    ChangeDelegationKeeps(s, from, receiver, net, cpu);
    var a := ChangeDelegation(s, from, receiver, net, cpu).value;
    KeptHasBooks(s, a, 0, -(net + cpu), Delta(receiver, net, cpu));
    ChangeTotalsKeeps(a, receiver, net, cpu, -(net + cpu));
    ChangeTotalsExactly(a, receiver, net, cpu);
    b := ChangeTotals(a, receiver, net, cpu).value;
    SameDelegations(s, a, b, from, receiver, net, cpu);
    SameTotals(s, a, b, b, receiver, net, cpu);
  }

  lemma DelegationNonNegative(s: State, from: Name, receiver: Name)
    requires Invariant(s)
    ensures var was := DelegationOf(s.delegations, (from, receiver)); 0 <= was.net && 0 <= was.cpu
  {
    hide SystemBooks.Staked, PoolBook, TokenBook, OwnerBook, TotalsBook;
  }

  /** The end of changebw: the payer pays what is owed, if anything. */
  lemma PaidOrNot(s: State, b: State, c: State, from: Name, receiver: Name, net: int, cpu: int, payer: Name, owed: int)
    requires b == s.(delegations := b.delegations, totals := b.totals) && c == b.(refunds := c.refunds)
    requires Delegates(s, b, from, receiver, net, cpu) && Entitles(s, b, receiver, net, cpu)
    requires 0 <= owed && payer != STAKE_ACCOUNT && payer != REX_ACCOUNT
    ensures var out := if 0 < owed then Transfer(c, payer, STAKE_ACCOUNT, owed) else Ok(c);
      && (out.Ok? <==> owed == 0 || owed <= AmountOf(s.tokens, payer))
      && (out.Ok? ==>
            && out.value == c.(tokens := out.value.tokens) && Stakes(s, out.value, payer, owed)
            && Delegates(s, out.value, from, receiver, net, cpu) && Entitles(s, out.value, receiver, net, cpu))
  {
    hide Transfer, Delegates, Entitles;
    TransferExactly(c, payer, STAKE_ACCOUNT, owed);
    var out := if 0 < owed then Transfer(c, payer, STAKE_ACCOUNT, owed) else Ok(c);
    if out.Ok? {
      SameDelegations(s, b, out.value, from, receiver, net, cpu);
      SameTotals(s, s, b, out.value, receiver, net, cpu);
      Moved(s, c, out.value, payer, owed);
    }
  }

  /** A transfer moves the amount, between two accounts and out of what the payer has. */
  lemma TransferExactly(s: State, from: Name, to: Name, amount: int)
    ensures Transfer(s, from, to, amount).Ok? <==> from != to && 0 < amount <= AmountOf(s.tokens, from)
    ensures Transfer(s, from, to, amount).Ok? ==>
      var t := Transfer(s, from, to, amount).value;
      && t == s.(tokens := t.tokens)
      && forall n ::
           AmountOf(t.tokens, n) == AmountOf(s.tokens, n) + (if n == to then amount else 0) - (if n == from then amount else 0)
  {
  }

  lemma Moved(s: State, c: State, t: State, payer: Name, owed: int)
    requires c.tokens == s.tokens && ((t == c && owed == 0) || Stakes(c, t, payer, owed))
    ensures Stakes(s, t, payer, owed)
  {
  }

  // ---- refunding

  /** A refund is paid in full, three days after it was last added to. */
  lemma ClaimRefundExactly(s: State, owner: Name)
    requires Invariant(s)
    ensures ClaimRefund(s, owner).Ok? <==>
      owner != STAKE_ACCOUNT && owner in s.refunds && 0 < Requested(s.refunds, owner)
      && s.refunds[owner].time + 259200 <= s.Seconds()
    ensures ClaimRefund(s, owner).Ok? ==>
      var t := ClaimRefund(s, owner).value;
      && t == s.(tokens := t.tokens, refunds := t.refunds)
      && AmountOf(t.tokens, owner) == AmountOf(s.tokens, owner) + Requested(s.refunds, owner)
      && owner !in t.refunds && OthersRefunds(s.refunds, t.refunds, owner)
  {
    hide Books, Transfer;
    if owner in s.refunds {
      var amount := s.refunds[owner].net + s.refunds[owner].cpu;
      RefundHeld(s, owner);
      TransferExactly(s, STAKE_ACCOUNT, owner, amount);
    }
  }

  lemma RefundHeld(s: State, owner: Name)
    requires Invariant(s) && owner in s.refunds
    ensures s.refunds[owner].net + s.refunds[owner].cpu <= AmountOf(s.tokens, STAKE_ACCOUNT)
  {
    hide PoolBook, TokenBook, OwnerBook, StakeBook, TotalsBook;
    StakeBookEraseRefund(AmountOf(s.tokens, STAKE_ACCOUNT), s.stakeGifts, s.delegations, s.refunds, 0, owner);
  }

  // ---- three days

  /** Whatever refund n has was last added to no earlier than at `since`. */
  predicate WaitsSince(refunds: map<Name, Refund>, n: Name, since: int) {
    n in refunds ==> since <= refunds[n].time
  }

  lemma ChangeWaits(s: State, from: Name, deltaNet: int, deltaCpu: int, n: Name, since: int)
    requires WaitsSince(s.refunds, n, since) && since <= s.Seconds() && ChangeRefund(s, from, deltaNet, deltaCpu).Ok?
    ensures WaitsSince(ChangeRefund(s, from, deltaNet, deltaCpu).value.0.refunds, n, since)
  {
    hide ChangeRefund;
    if from in s.refunds {
      RowWaits(s, from, deltaNet, deltaCpu, n, since);
    } else {
      RowStarted(s, from, deltaNet, deltaCpu);
    }
  }

  lemma RowWaits(s: State, from: Name, deltaNet: int, deltaCpu: int, n: Name, since: int)
    requires WaitsSince(s.refunds, n, since) && since <= s.Seconds() && ChangeRefund(s, from, deltaNet, deltaCpu).Ok?
    requires from in s.refunds
    ensures WaitsSince(ChangeRefund(s, from, deltaNet, deltaCpu).value.0.refunds, n, since)
  {
    hide Settle;
  }

  lemma ChangeBandwidthWaits(s: State, source: Name, receiver: Name, net: int, cpu: int, transfer: bool, n: Name, since: int)
    requires WaitsSince(s.refunds, n, since) && since <= s.Seconds()
    requires ChangeBandwidth(s, source, receiver, net, cpu, transfer).Ok?
    ensures WaitsSince(ChangeBandwidth(s, source, receiver, net, cpu, transfer).value.refunds, n, since)
  {
    hide ChangeDelegation, ChangeTotals, ChangeRefund, Transfer, Abs;
    var from := if transfer then receiver else source;
    ChangeDelegationExactly(s, from, receiver, net, cpu);
    var a := ChangeDelegation(s, from, receiver, net, cpu).value;
    ChangeTotalsExactly(a, receiver, net, cpu);
    var b := ChangeTotals(a, receiver, net, cpu).value;
    TransferExactly(b, source, STAKE_ACCOUNT, net + cpu);
    if ChangeRefund(b, from, net, cpu).Ok? {
      ChangeWaits(b, from, net, cpu, n, since);
      var (c, owed) := ChangeRefund(b, from, net, cpu).value;
      TransferExactly(c, source, STAKE_ACCOUNT, owed);
    }
  }

  lemma AfterWaits(s: State, a: SystemActions.Action, n: Name, since: int)
    requires Invariant(s) && WaitsSince(s.refunds, n, since) && since <= s.Seconds()
    ensures WaitsSince(SystemActions.After(s, a).refunds, n, since)
  {
    hide Invariant, ChangeBandwidth, SystemActions.Step, Transfer;
    if RexLocked.Staking(a) {
      StakingWaits(s, a, n, since);
    } else if a.Wait? {
      RexLocked.Waited(s, a);
    } else {
      RexLocked.NearEnd(s, s.Seconds());
      RexLocked.StepLocks(s, a, s.Seconds());
    }
  }

  lemma StakingWaits(s: State, a: SystemActions.Action, n: Name, since: int)
    requires RexLocked.Staking(a) && WaitsSince(s.refunds, n, since) && since <= s.Seconds()
    ensures WaitsSince(SystemActions.After(s, a).refunds, n, since)
  {
    hide ChangeBandwidth, ClaimRefund, WaitsSince;
    match a
    case DelegateBandwidth(from, receiver, net, cpu, transfer) =>
      if ChangeBandwidth(s, from, receiver, net, cpu, transfer).Ok? {
        ChangeBandwidthWaits(s, from, receiver, net, cpu, transfer, n, since);
      }
    case UndelegateBandwidth(from, receiver, net, cpu) =>
      if ChangeBandwidth(s, from, receiver, -net, -cpu, false).Ok? {
        ChangeBandwidthWaits(s, from, receiver, -net, -cpu, false, n, since);
      }
    case ClaimRefund(owner) => ClaimWaits(s, owner, n, since);
    case _ =>
  }

  lemma ClaimWaits(s: State, owner: Name, n: Name, since: int)
    requires WaitsSince(s.refunds, n, since)
    ensures ClaimRefund(s, owner).Ok? ==> WaitsSince(ClaimRefund(s, owner).value.refunds, n, since)
  {
    hide Transfer;
    if owner in s.refunds {
      TransferExactly(s, STAKE_ACCOUNT, owner, s.refunds[owner].net + s.refunds[owner].cpu);
    }
  }

  lemma {:induction false} RunWaits(s: State, actions: seq<SystemActions.Action>, n: Name, since: int)
    requires Invariant(s) && SystemActions.AllAdmissible(s, actions)
    requires WaitsSince(s.refunds, n, since) && since <= s.Seconds()
    ensures WaitsSince(SystemActions.Run(s, actions).refunds, n, since)
    decreases |actions|
  {
    hide Invariant, SystemActions.Step, SystemActions.Admissible, WaitsSince;
    if actions == [] {
    } else {
      var t := SystemActions.After(s, actions[0]);
      SystemSafety.StepSafe(s, actions[0]);
      SystemSafety.AfterInvariant(s, actions[0]);
      RexLocked.StepForward(s, actions[0]);
      RexLocked.SecondsForward(s, t);
      AfterWaits(s, actions[0], n, since);
      RunWaits(t, actions[1..], n, since);
    }
  }

  /** After an undelegation no run of actions brings its owner a refund within three days. */
  lemma UndelegatedWaits(s: State, from: Name, receiver: Name, net: int, cpu: int, actions: seq<SystemActions.Action>)
    requires Invariant(s) && from != STAKE_ACCOUNT && UndelegateBandwidth(s, from, receiver, net, cpu).Ok?
    requires SystemActions.AllAdmissible(UndelegateBandwidth(s, from, receiver, net, cpu).value, actions)
    ensures var u := SystemActions.Run(UndelegateBandwidth(s, from, receiver, net, cpu).value, actions);
      u.Seconds() < s.Seconds() + 259200 ==> ClaimRefund(u, from).Refused?
  {
    hide Invariant, UndelegateBandwidth, SystemActions.Run, SystemActions.AllAdmissible, Transfer;
    var t := UndelegateBandwidth(s, from, receiver, net, cpu).value;
    UndelegateExactly(s, from, receiver, net, cpu);
    SystemSafety.UndelegateSafe(s, from, receiver, net, cpu);
    RexLocked.SafeState(s, t);
    RunWaits(t, actions, from, s.Seconds());
  }
}
