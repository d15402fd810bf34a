/**
 * How an action ends: with a value, refused because of what its caller asked for, or broken by one of the checks
 * the source marks as never expected to fire (or by a division the virtual machine traps on). Either failure
 * rolls the whole transaction back.
 */
module Outcomes {

  datatype Fault =
    | LogicError          // update_resource_limits: "logic error, should not occur"
    | NegativeTotals      // "insufficient staked total net/cpu bandwidth"
    | NegativeUnlent      // add_to_rex_pool: "programmer error, this should never go negative"
    | EmptyPool           // add_to_rex_pool: "lendable REX pool is empty"
    | DivisionByZero      // fill_rex_order and get_bancor_output
    | SavingsLogic        // "logic error in mvtosavings"
    | SavingsProgrammer   // "programmer error in mvtosavings"
    | NegativeRefund      // "negative net/cpu refund amount"
    | Overdrawn           // a custodian account cannot cover a transfer
    | DuplicateLoan       // a loan number that is already taken
    | NegativeAmount      // pay: a share below zero on its way into uint64_t

  datatype Outcome<+T> = Ok(value: T) | Refused | Broken(fault: Fault) {
    predicate IsFailure() {
      !Ok?
    }

    function PropagateFailure<U>(): Outcome<U>
      requires IsFailure()
    {
      match this
      case Refused => Refused
      case Broken(fault) => Broken(fault)
    }

    function Extract(): T
      requires !IsFailure()
    {
      value
    }
  }

  /** What a check finds. */
  datatype Verdict = Pass | Fail(refused: bool, why: Fault) {
    predicate IsFailure() {
      Fail?
    }

    function PropagateFailure<U>(): Outcome<U>
      requires IsFailure()
    {
      if refused then Refused else Broken(why)
    }
  }

  /** A check on what the caller asked for. */
  function Check(c: bool): Verdict {
    if c then Pass else Fail(true, LogicError)
  }

  /** A check that is meant never to fire. */
  function Expected(c: bool, fault: Fault): Verdict {
    if c then Pass else Fail(false, fault)
  }

  /** Both failed, for the same reason. */
  predicate SameFailure<T, U>(a: Outcome<T>, b: Outcome<U>) {
    (a.Refused? && b.Refused?) || (a.Broken? && b.Broken? && a.fault == b.fault)
  }
}
