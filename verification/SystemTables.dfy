/** The rows the REX and staking actions read and write, and the primitive steps on them. */
module SystemTables {
  import opened Outcomes
  import opened RexMaturities
  import opened RexPool

  type Name = int   // the 64-bit value of an account name

  const REX_ACCOUNT: Name := 6138663590357893120     // eosio.rex
  const STAKE_ACCOUNT: Name := 6138663591134630912   // eosio.stake
  const NAMES_ACCOUNT: Name := 6138663588137709568   // eosio.names
  const B1: Name := 4053239664633446400

  const LOAN_TERM := 2592000000000                   // 30 days
  const REFUND_DELAY := 259200                       // 3 days, in seconds

  datatype Resource = Cpu | Net

  datatype Loan = Loan(from: Name, receiver: Name, payment: int, balance: int, staked: int, expiration: int)

  datatype Order = Order(requested: int, proceeds: int, time: nat, isOpen: bool)

  datatype Delegation = Delegation(net: int, cpu: int)

  datatype Resources = Resources(net: int, cpu: int, ram: int)

  datatype Refund = Refund(time: nat, net: int, cpu: int)

  /**
   * `now` is the block time in microseconds. `tokens` is the core-token ledger of the token contract, and the two
   * gift counters add up what plain token transfers have sent to eosio.rex and eosio.stake.
   */
  datatype State = State(
    now: nat,
    initialized: bool,
    pool: Pool,
    funds: map<Name, int>,
    balances: map<Name, Balance>,
    cpuLoans: map<int, Loan>,
    netLoans: map<int, Loan>,
    orders: map<Name, Order>,
    delegations: map<(Name, Name), Delegation>,
    totals: map<Name, Resources>,
    refunds: map<Name, Refund>,
    tokens: map<Name, int>,
    rexGifts: int,
    stakeGifts: int
  ) {
    function Seconds(): nat {
      now / 1000000
    }
  }

  function AmountOf(m: map<Name, int>, n: Name): int {
    if n in m then m[n] else 0
  }

  function ResourcesOf(totals: map<Name, Resources>, n: Name): Resources {
    if n in totals then totals[n] else Resources(0, 0, 0)
  }

  function DelegationOf(delegations: map<(Name, Name), Delegation>, k: (Name, Name)): Delegation {
    if k in delegations then delegations[k] else Delegation(0, 0)
  }

  function LoansOf(s: State, res: Resource): map<int, Loan> {
    if res.Cpu? then s.cpuLoans else s.netLoans
  }

  function WithLoans(s: State, res: Resource, loans: map<int, Loan>): State {
    if res.Cpu? then s.(cpuLoans := loans) else s.(netLoans := loans)
  }

  // ---- the token contract

  /** token::transfer of core tokens. */
  function Transfer(s: State, from: Name, to: Name, amount: int): Outcome<State> {
    var allowed := from != to && 0 < amount;
    :- Check(allowed);
    :- if from == REX_ACCOUNT || from == STAKE_ACCOUNT then Expected(amount <= AmountOf(s.tokens, from), Overdrawn)
       else Check(amount <= AmountOf(s.tokens, from));
    Ok(s.(tokens := s.tokens[from := AmountOf(s.tokens, from) - amount][to := AmountOf(s.tokens, to) + amount]))
  }

  // ---- resource totals

  /** Write a userres row, or erase it when nothing is left in it. */
  function WithResources(s: State, receiver: Name, row: Resources): State {
    s.(totals := if row.net == 0 && row.cpu == 0 && row.ram == 0 then s.totals - {receiver} else s.totals[receiver := row])
  }

  /** Write a delegation row, or erase it when nothing is left in it. */
  function WithDelegation(delegations: map<(Name, Name), Delegation>, key: (Name, Name), row: Delegation)
    : map<(Name, Name), Delegation>
  {
    if row.net == 0 && row.cpu == 0 then delegations - {key} else delegations[key := row]
  }

  /** update_resource_limits. */
  function UpdateResourceLimits(s: State, receiver: Name, deltaNet: int, deltaCpu: int): Outcome<State> {
    if deltaNet == 0 && deltaCpu == 0 then Ok(s)
    else
      :- Expected(receiver in s.totals || (0 <= deltaNet && 0 <= deltaCpu), LogicError);
      var row := ResourcesOf(s.totals, receiver);
      var updated := Resources(row.net + deltaNet, row.cpu + deltaCpu, row.ram);
      :- Expected(0 <= updated.net && 0 <= updated.cpu, NegativeTotals);
      Ok(WithResources(s, receiver, updated))
  }

  function UpdateLimit(s: State, receiver: Name, res: Resource, delta: int): Outcome<State> {
    if res.Cpu? then UpdateResourceLimits(s, receiver, 0, delta) else UpdateResourceLimits(s, receiver, delta, 0)
  }

  // ---- index order

  predicate Before(a: (int, int), b: (int, int)) {
    a.0 < b.0 || (a.0 == b.0 && a.1 <= b.1)
  }

  ghost predicate IsLeast(keys: set<(int, int)>, a: (int, int)) {
    a in keys && forall b :: b in keys ==> Before(a, b)
  }

  lemma LeastExists(keys: set<(int, int)>)
    requires keys != {}
    ensures exists a :: IsLeast(keys, a)
    decreases |keys|
  {
    var a :| a in keys;
    if keys == {a} {
      assert IsLeast(keys, a);
    } else {
      LeastExists(keys - {a});
      var b :| IsLeast(keys - {a}, b);
      if Before(a, b) {
        forall c | c in keys
          ensures Before(a, c)
        {
          assert c == a || c in keys - {a};
        }
        assert IsLeast(keys, a);
      } else {
        assert IsLeast(keys, b);
      }
    }
  }

  /** The first entry of a secondary index: the least key, ties broken by the primary key. */
  ghost function Least(keys: set<(int, int)>): (a: (int, int))
    requires keys != {}
    ensures IsLeast(keys, a)
  {
    LeastExists(keys);
    var a :| IsLeast(keys, a);
    a
  }

  function ByExpiry(loans: map<int, Loan>): set<(int, int)> {
    set k | k in loans :: (loans[k].expiration, k)
  }

  /** The open orders that come after `after` in the index by time. */
  function OpenAfter(orders: map<Name, Order>, after: (int, int)): set<(int, int)> {
    set o | o in orders && orders[o].isOpen && !Before((orders[o].time, o), after) :: (orders[o].time, o)
  }

}
