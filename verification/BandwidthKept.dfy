/** Delegating, undelegating and refunding keep the books. */
module BandwidthKept {
  import opened Outcomes
  import opened TableSums
  import opened SystemTables
  import opened Bandwidth
  import opened SystemBooks
  import opened RexInvariant
  import opened RexActionsKept

  lemma ChangeDelegationKeeps(s: State, from: Name, receiver: Name, deltaNet: int, deltaCpu: int)
    requires Invariant(s)
    ensures Keeps(s, ChangeDelegation(s, from, receiver, deltaNet, deltaCpu), 0, -(deltaNet + deltaCpu),
                  Delta(receiver, deltaNet, deltaCpu))
  {
    hide Sum, PoolBook, TokenBook, OwnerBook, StakeBook, TotalsBook, Kept, WithDelegation;
    var out := ChangeDelegation(s, from, receiver, deltaNet, deltaCpu);
    if out.Ok? {
      var key := (from, receiver);
      var row := DelegationOf(s.delegations, key);
      var updated := Delegation(row.net + deltaNet, row.cpu + deltaCpu);
      StakeBookDelegation(AmountOf(s.tokens, STAKE_ACCOUNT), s.stakeGifts, s.delegations, s.refunds, 0, key, updated);
      TotalsBookDelegation(s.totals, s.delegations, s.cpuLoans, s.netLoans, key, updated);
      SamePool(s, out.value, 0, -(deltaNet + deltaCpu), Delta(receiver, deltaNet, deltaCpu));
    }
  }

  /** The totals row takes the change, and its check cannot fire. */
  lemma ChangeTotalsKeeps(s: State, receiver: Name, deltaNet: int, deltaCpu: int, h: int)
    requires Books(s, 0, h, Delta(receiver, deltaNet, deltaCpu))
    ensures ChangeTotals(s, receiver, deltaNet, deltaCpu).Ok?
    ensures Kept(s, ChangeTotals(s, receiver, deltaNet, deltaCpu).value, 0, h, Delta(0, 0, 0))
    ensures var t := ChangeTotals(s, receiver, deltaNet, deltaCpu).value; t.refunds == s.refunds
  {
    hide Books, Kept;
    var d := Delta(receiver, deltaNet, deltaCpu);
    EnteredNonNegative(s, 0, h, d);
    EnterKeeps(s, ChangeTotals(s, receiver, deltaNet, deltaCpu).value, 0, h, d);
  }

  lemma RefundFacts(s: State, from: Name, h: int)
    requires Books(s, 0, h, Delta(0, 0, 0)) && from in s.refunds
    ensures 0 <= s.refunds[from].net && 0 <= s.refunds[from].cpu
  {
    hide Sum, Staked, PoolBook, TokenBook, OwnerBook, TotalsBook;
  }

  lemma RefundWrittenKeeps(s: State, from: Name, row: Refund, h: int)
    requires Books(s, 0, h, Delta(0, 0, 0)) && 0 <= row.net && 0 <= row.cpu
    ensures Kept(s, s.(refunds := s.refunds[from := row]), 0, h + Requested(s.refunds, from) - (row.net + row.cpu), Delta(0, 0, 0))
  {
    hide Sum, PoolBook, TokenBook, OwnerBook, StakeBook, TotalsBook, Kept, Share;
    RefundShare(s.refunds, from);
    StakeBookRefund(AmountOf(s.tokens, STAKE_ACCOUNT), s.stakeGifts, s.delegations, s.refunds, h, from, row);
    SamePool(s, s.(refunds := s.refunds[from := row]), 0, h + Requested(s.refunds, from) - (row.net + row.cpu),
             Delta(0, 0, 0));
  }

  lemma RefundErasedKeeps(s: State, from: Name, h: int)
    requires Books(s, 0, h, Delta(0, 0, 0)) && from in s.refunds
    ensures Kept(s, s.(refunds := s.refunds - {from}), 0, h + Requested(s.refunds, from), Delta(0, 0, 0))
  {
    hide Sum, PoolBook, TokenBook, OwnerBook, StakeBook, TotalsBook, Kept, Share;
    StakeBookEraseRefund(AmountOf(s.tokens, STAKE_ACCOUNT), s.stakeGifts, s.delegations, s.refunds, h, from);
    SamePool(s, s.(refunds := s.refunds - {from}), 0, h + Requested(s.refunds, from), Delta(0, 0, 0));
  }

  /** What a refund row absorbs and what is left to be paid add up to the change. */
  lemma ChangeRefundKeeps(s: State, from: Name, deltaNet: int, deltaCpu: int)
    requires Books(s, 0, -(deltaNet + deltaCpu), Delta(0, 0, 0))
    requires (0 <= deltaNet && 0 <= deltaCpu) || (deltaNet <= 0 && deltaCpu <= 0)
    ensures ChangeRefund(s, from, deltaNet, deltaCpu).Ok?
    ensures var (t, owed) := ChangeRefund(s, from, deltaNet, deltaCpu).value;
      Kept(s, t, 0, -owed, Delta(0, 0, 0)) && 0 <= owed && (deltaNet <= 0 && deltaCpu <= 0 ==> owed == 0)
  {
    hide Books, Kept;
    var h := -(deltaNet + deltaCpu);
    if from in s.refunds {
      RefundFacts(s, from, h);
      var row := s.refunds[from];
      var net, cpu := Settle(row.net, deltaNet).0, Settle(row.cpu, deltaCpu).0;
      if net == 0 && cpu == 0 {
        RefundErasedKeeps(s, from, h);
      } else {
        RefundWrittenKeeps(s, from, Refund(if deltaNet < 0 || deltaCpu < 0 then s.Seconds() else row.time, net, cpu), h);
      }
    } else if deltaNet < 0 || deltaCpu < 0 {
      RefundWrittenKeeps(s, from, Refund(s.Seconds(), -deltaNet, -deltaCpu), h);
    } else {
      SamePool(s, s, 0, h, Delta(0, 0, 0));
    }
  }

  function Requested(refunds: map<Name, Refund>, n: Name): int {
    if n in refunds then refunds[n].net + refunds[n].cpu else 0
  }

  lemma RefundShare(refunds: map<Name, Refund>, n: Name)
    ensures Share(refunds, Refundable, n) == Requested(refunds, n)
  {
  }

  /** changebw, for deltas of one sign. */
  lemma ChangeBandwidthSafe(s: State, source: Name, receiver: Name, deltaNet: int, deltaCpu: int, transfer: bool)
    requires Invariant(s) && source != STAKE_ACCOUNT
    requires (0 <= deltaNet && 0 <= deltaCpu) || (deltaNet <= 0 && deltaCpu <= 0)
    requires 0 < deltaNet + deltaCpu ==> source != REX_ACCOUNT
    ensures Safe(s, ChangeBandwidth(s, source, receiver, deltaNet, deltaCpu, transfer))
  {
    hide Books, Kept, Safe, ChangeDelegation, ChangeTotals, ChangeRefund, Transfer;
    var from := if transfer then receiver else source;
    var out := ChangeBandwidth(s, source, receiver, deltaNet, deltaCpu, transfer);
    ChangeDelegationKeeps(s, from, receiver, deltaNet, deltaCpu);
    var delegated := ChangeDelegation(s, from, receiver, deltaNet, deltaCpu);
    if (deltaNet != 0 || deltaCpu != 0) && delegated.Ok? {
      var a, h, d := delegated.value, -(deltaNet + deltaCpu), Delta(receiver, deltaNet, deltaCpu);
      KeptHasBooks(s, a, 0, h, d);
      ChangeTotalsKeeps(a, receiver, deltaNet, deltaCpu, h);
      var b := ChangeTotals(a, receiver, deltaNet, deltaCpu).value;
      Then(s, a, 0, h, d, Ok(b), 0, h, Delta(0, 0, 0));
      KeptHasBooks(s, b, 0, h, Delta(0, 0, 0));
      var toSelf := !transfer && from == receiver;
      var c, owed := b, deltaNet + deltaCpu;
      if toSelf || deltaNet + deltaCpu < 0 {
        ChangeRefundKeeps(b, from, deltaNet, deltaCpu);
        c, owed := ChangeRefund(b, from, deltaNet, deltaCpu).value.0, ChangeRefund(b, from, deltaNet, deltaCpu).value.1;
        Then(s, b, 0, h, Delta(0, 0, 0), Ok(c), 0, -owed, Delta(0, 0, 0));
        KeptHasBooks(s, c, 0, -owed, Delta(0, 0, 0));
      }
      PayForStake(s, c, source, owed);
    } else {
      RefusedIsSafe(s, out);
    }
  }

  lemma PayForStake(s: State, c: State, source: Name, owed: int)
    requires Kept(s, c, 0, -owed, Delta(0, 0, 0)) && source != STAKE_ACCOUNT
    requires 0 <= owed && (0 < owed ==> source != REX_ACCOUNT)
    ensures Safe(s, if 0 < owed then Transfer(c, source, STAKE_ACCOUNT, owed) else Ok(c))
  {
    hide Books, Kept, Safe, Transfer;
    if 0 < owed {
      KeptHasBooks(s, c, 0, -owed, Delta(0, 0, 0));
      TransferKeeps(c, source, STAKE_ACCOUNT, owed, 0, -owed, Delta(0, 0, 0));
      ThenSafe(s, c, 0, -owed, Delta(0, 0, 0), Transfer(c, source, STAKE_ACCOUNT, owed));
    } else {
      KeepsSafe(s, Ok(c));
    }
  }

  lemma ClaimRefundSafe(s: State, owner: Name)
    requires Invariant(s) && owner != REX_ACCOUNT
    ensures Safe(s, ClaimRefund(s, owner))
  {
    hide Sum, PoolBook, TokenBook, OwnerBook, StakeBook, TotalsBook, Kept, Safe, Transfer;
    var out := ClaimRefund(s, owner);
    if owner in s.refunds && s.refunds[owner].time + REFUND_DELAY <= s.Seconds() && owner != STAKE_ACCOUNT {
      var amount := s.refunds[owner].net + s.refunds[owner].cpu;
      StakeBookEraseRefund(AmountOf(s.tokens, STAKE_ACCOUNT), s.stakeGifts, s.delegations, s.refunds, 0, owner);
      var erased := s.(refunds := s.refunds - {owner});
      SamePool(s, erased, 0, amount, Delta(0, 0, 0));
      TransferKeeps(erased, STAKE_ACCOUNT, owner, amount, 0, amount, Delta(0, 0, 0));
      PaidErased(s, owner, amount);
      ThenSafe(s, erased, 0, amount, Delta(0, 0, 0), out);
    } else {
      RefusedRefund(s, owner);
      RefusedIsSafe(s, out);
    }
  }

  /** Erasing the request first and paying then comes to the same. */
  lemma PaidErased(s: State, owner: Name, amount: int)
    requires owner in s.refunds && s.refunds[owner].time + REFUND_DELAY <= s.Seconds()
    requires amount == s.refunds[owner].net + s.refunds[owner].cpu
    ensures ClaimRefund(s, owner) == Transfer(s.(refunds := s.refunds - {owner}), STAKE_ACCOUNT, owner, amount)
  {
  }

  lemma RefusedRefund(s: State, owner: Name)
    requires owner !in s.refunds || s.Seconds() < s.refunds[owner].time + REFUND_DELAY || owner == STAKE_ACCOUNT
    ensures ClaimRefund(s, owner).Refused?
  {
  }
}
