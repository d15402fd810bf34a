/** Delegating, undelegating and refunding resources. */
module Bandwidth {
  import opened Outcomes
  import opened SystemTables

  function Abs(x: int): int {
    if x < 0 then -x else x
  }

  /** One component of a refund row after a change of `delta` in the stake: what is left in it, and what is still owed. */
  function Settle(refund: int, delta: int): (int, int) {
    if refund - delta < 0 then (0, delta - refund) else (refund - delta, 0)
  }

  /** The delegation row of changebw. */
  function ChangeDelegation(s: State, from: Name, receiver: Name, deltaNet: int, deltaCpu: int): Outcome<State> {
    var key := (from, receiver);
    var row := DelegationOf(s.delegations, key);
    var updated := Delegation(row.net + deltaNet, row.cpu + deltaCpu);
    :- Check(0 <= updated.net && 0 <= updated.cpu);
    Ok(s.(delegations := WithDelegation(s.delegations, key, updated)))
  }

  /** The userres row of changebw. */
  function ChangeTotals(s: State, receiver: Name, deltaNet: int, deltaCpu: int): Outcome<State> {
    var row := ResourcesOf(s.totals, receiver);
    var updated := Resources(row.net + deltaNet, row.cpu + deltaCpu, row.ram);
    :- Expected(0 <= updated.net && 0 <= updated.cpu, NegativeTotals);
    Ok(WithResources(s, receiver, updated))
  }

  /** The refund row of changebw, with the stake change that is left to be paid for. */
  function ChangeRefund(s: State, from: Name, deltaNet: int, deltaCpu: int): Outcome<(State, int)> {
    if from in s.refunds then
      var row := s.refunds[from];
      var (net, owedNet) := Settle(row.net, deltaNet);
      var (cpu, owedCpu) := Settle(row.cpu, deltaCpu);
      :- Expected(0 <= net && 0 <= cpu, NegativeRefund);
      var time := if deltaNet < 0 || deltaCpu < 0 then s.Seconds() else row.time;
      Ok((s.(refunds := if net == 0 && cpu == 0 then s.refunds - {from} else s.refunds[from := Refund(time, net, cpu)]),
          owedNet + owedCpu))
    else if deltaNet < 0 || deltaCpu < 0 then
      var (net, owedNet) := if deltaNet < 0 then (-deltaNet, 0) else (0, deltaNet);
      var (cpu, owedCpu) := if deltaCpu < 0 then (-deltaCpu, 0) else (0, deltaCpu);
      Ok((s.(refunds := s.refunds[from := Refund(s.Seconds(), net, cpu)]), owedNet + owedCpu))
    else
      Ok((s, deltaNet + deltaCpu))
  }

  /** changebw. */
  function ChangeBandwidth(s: State, source: Name, receiver: Name, deltaNet: int, deltaCpu: int, transfer: bool): Outcome<State> {
    var allowed := deltaNet != 0 || deltaCpu != 0;
    :- Check(allowed);
    :- Check(Abs(deltaNet + deltaCpu) >= Abs(deltaNet) && Abs(deltaNet + deltaCpu) >= Abs(deltaCpu));
    var from := if transfer then receiver else source;
    var delegated :- ChangeDelegation(s, from, receiver, deltaNet, deltaCpu);
    var totalled :- ChangeTotals(delegated, receiver, deltaNet, deltaCpu);
    if source == STAKE_ACCOUNT then Ok(totalled)
    else
      var toSelf := !transfer && from == receiver;
      var (settled, owed) :- if toSelf || deltaNet + deltaCpu < 0 then ChangeRefund(totalled, from, deltaNet, deltaCpu)
                             else Ok((totalled, deltaNet + deltaCpu));
      if 0 < owed then Transfer(settled, source, STAKE_ACCOUNT, owed) else Ok(settled)
  }

  function DelegateBandwidth(s: State, from: Name, receiver: Name, net: int, cpu: int, transfer: bool): Outcome<State> {
    var allowed := 0 <= cpu && 0 <= net && 0 < net + cpu;
    :- Check(allowed);
    :- Check(!transfer || from != receiver);
    ChangeBandwidth(s, from, receiver, net, cpu, transfer)
  }

  function UndelegateBandwidth(s: State, from: Name, receiver: Name, net: int, cpu: int): Outcome<State> {
    var allowed := 0 <= cpu && 0 <= net && 0 < net + cpu;
    :- Check(allowed);
    ChangeBandwidth(s, from, receiver, -net, -cpu, false)
  }

  /** refund, three days after the last request. */
  function ClaimRefund(s: State, owner: Name): Outcome<State> {
    var allowed := owner in s.refunds;
    :- Check(allowed);
    var row := s.refunds[owner];
    :- Check(row.time + REFUND_DELAY <= s.Seconds());
    var paid :- Transfer(s, STAKE_ACCOUNT, owner, row.net + row.cpu);
    Ok(paid.(refunds := paid.refunds - {owner}))
  }
}
