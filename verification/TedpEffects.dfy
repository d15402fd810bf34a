/** What each action of the payout contract does, in numbers. */
module TedpEffects {
  import opened Outcomes
  import opened Products
  import opened Tedp

  // ---- the split

  /** `share` is x rounded to the nearest integer. */
  predicate Nearest(share: int, x: real) {
    x - 0.5 < share as real <= x + 0.5
  }

  /**
   * REX gets its part of the total, which is the whole but for the ratio, to half a unit; with a negative ratio it has
   * nothing to lend and gets nothing. The EVM gets the rest.
   */
  predicate Shared(total: int, ratio: real, toRex: int, toEvm: int) {
    && toRex + toEvm == total
    && (ratio < 0.0 ==> toRex == 0)
    && (ratio >= 0.0 ==> Nearest(toRex, total as real * (1.0 - ratio)))
  }

  lemma SplitShares(total: int, ratio: real)
    requires total > 0 && Split(total, ratio).Ok?
    ensures Shared(total, ratio, Split(total, ratio).value.0, Split(total, ratio).value.1)
  {
    hide Round;
    SplitExactly(total, ratio);
    RoundIsNearest(total as real * (1.0 - ratio));
  }

  lemma RoundIsNearest(x: real)
    ensures x >= 0.0 ==> Nearest(Round(x), x)
    ensures x < -0.5 ==> Round(x) < 0
    ensures -0.5 < x < 0.0 ==> Round(x) == 0
  {
  }

  /** The ratio is the percentage of the EVM's tokens in all that could earn: REX's lendable ones and the EVM's. */
  lemma RatioIs(percent: nat, balance: nat, rex: nat, evm: nat)
    requires evm * 100000000000000 <= balance < (evm + 1) * 100000000000000
    ensures balance == 0 ==> BalanceRatio(percent, balance, rex) == 0.0
    ensures balance > 0 && rex == 0 ==> BalanceRatio(percent, balance, rex) == -1.0
    ensures balance > 0 && rex > 0 ==>
      BalanceRatio(percent, balance, rex) * 100.0 * (rex + evm) as real == (evm * percent) as real
  {
    DivModUnique(balance, 100000000000000, evm, balance - evm * 100000000000000);
    if balance > 0 && rex > 0 {
      PercentOf(evm, percent);
      Quotient(evm as real * (percent as real / 100.0), (rex + evm) as real);
    }
  }

  lemma Quotient(n: real, d: real)
    requires d > 0.0
    ensures n / d * 100.0 * d == n * 100.0
  {
    var q := n / d;
    assert q * d == n;
    assert q * 100.0 * d == q * d * 100.0;
  }

  // ---- one row

  /** k whole intervals have passed since the row was last paid. */
  predicate Passed(row: Payout, now: nat, k: nat) {
    row.last <= now && k * row.interval <= now - row.last < (k + 1) * row.interval
  }

  /** Paying moves the time of last payout to now, whether or not the row has an amount. */
  predicate Stamped(s: State, t: State, p: Payee)
    requires p in s.rows
  {
    t.rows == s.rows[p := s.rows[p].(last := s.now)] && t.now == s.now
  }

  /** `total` more has been sent to p and nothing to anybody else. */
  predicate SentMore(s: State, t: State, p: Payee, total: int) {
    forall q :: SentTo(t, q) == SentTo(s, q) + if q == p then total else 0
  }

  /** One turn of the loop of pay, for a row that is k intervals behind. */
  lemma PayRowEffect(s: State, p: Payee, ratio: real, k: nat)
    requires p in s.rows && Passed(s.rows[p], s.now, k) && PayRow(s, p, ratio).Ok?
    ensures k == 0 ==> PayRow(s, p, ratio).value == (s, false)
    ensures k > 0 ==>
      var (t, made) := PayRow(s, p, ratio).value;
      var total := k * s.rows[p].amount * 10000;
      && Stamped(s, t, p) && SentMore(s, t, p, total) && (made <==> s.rows[p].amount != 0)
      && (!p.Rex? || total == 0 ==> t.viaRex == s.viaRex && t.toEvm == s.toEvm)
      && (p.Rex? && total > 0 ==> Shared(total, ratio, t.viaRex - s.viaRex, t.toEvm - s.toEvm))
  {
    hide Split, Shared;
    var row := s.rows[p];
    DivModUnique(s.now - row.last, row.interval, k, s.now - row.last - k * row.interval);
    DueAmount(k, row.amount);
    if k > 0 && p.Rex? && row.amount != 0 {
      SplitShares(k * row.amount * 10000, ratio);
    }
  }

  lemma NoRowNoPayment(s: State, p: Payee, ratio: real)
    requires p !in s.rows
    ensures PayRow(s, p, ratio) == Ok((s, false))
  {
  }

  // ---- pay

  /** Row and payments of p are the same. */
  predicate SameFor(s: State, t: State, p: Payee) {
    && t.now == s.now && SentTo(t, p) == SentTo(s, p)
    && (p in s.rows <==> p in t.rows) && (p in s.rows ==> t.rows[p] == s.rows[p])
  }

  lemma OthersRow(s: State, p: Payee, q: Payee, ratio: real)
    requires InTime(s) && p != q && PayRow(s, p, ratio).Ok?
    ensures SameFor(s, PayRow(s, p, ratio).value.0, q)
  {
    hide Split;
  }

  /** After a row of p that is k intervals behind has been paid. */
  predicate PaidFor(s: State, t: State, p: Payee, k: nat)
    requires p in s.rows
  {
    && t.now == s.now && SentTo(t, p) == SentTo(s, p) + k * s.rows[p].amount * 10000
    && p in t.rows && t.rows[p] == if k > 0 then s.rows[p].(last := s.now) else s.rows[p]
  }

  lemma {:induction false} PayRowsEffect(s: State, ps: seq<Payee>, ratio: real, p: Payee, k: nat)
    requires InTime(s) && (forall i, j :: 0 <= i < j < |ps| ==> ps[i] != ps[j]) && PayRows(s, ps, ratio).Ok?
    requires p in s.rows && Passed(s.rows[p], s.now, k)
    ensures if p in ps then PaidFor(s, PayRows(s, ps, ratio).value.0, p, k) else SameFor(s, PayRows(s, ps, ratio).value.0, p)
    decreases |ps|
  {
    hide PayRow, Passed, InTime;
    if ps == [] {
    } else {
      var q, rest := ps[0], ps[1..];
      assert ps == [q] + rest && q !in rest;
      PayRowFrame(s, q, ratio);
      var t := PayRow(s, q, ratio).value.0;
      if q == p {
        PayRowEffect(s, p, ratio, k);
        RestIsSame(t, rest, ratio, p);
      } else {
        OthersRow(s, q, p, ratio);
        PayRowsEffect(t, rest, ratio, p, k);
      }
    }
  }

  lemma {:induction false} RestIsSame(s: State, ps: seq<Payee>, ratio: real, p: Payee)
    requires InTime(s) && p !in ps && PayRows(s, ps, ratio).Ok?
    ensures SameFor(s, PayRows(s, ps, ratio).value.0, p)
    decreases |ps|
  {
    hide PayRow;
    if ps == [] {
    } else {
      assert ps[0] in ps && ps[0] != p;
      PayRowFrame(s, ps[0], ratio);
      OthersRow(s, ps[0], p, ratio);
      RestIsSame(PayRow(s, ps[0], ratio).value.0, ps[1..], ratio, p);
    }
  }

  /** pay sends every payee its amount for each whole interval since its last payout, which is now. */
  lemma PayEffect(s: State, ratio: real, covered: bool, p: Payee, k: nat)
    requires InTime(s) && Pay(s, ratio, covered).Ok? && p in s.rows && Passed(s.rows[p], s.now, k)
    ensures PaidFor(s, Pay(s, ratio, covered).value, p, k)
  {
    hide PayRows, Passed;
    EveryoneIsPaid(p);
    PayRowsEffect(s, Everyone(), ratio, p, k);
  }

  // ---- the setters, and the caps

  /** The caps and intervals of the six setters. */
  lemma SetPayoutExactly(s: State, p: Payee, amount: nat)
    ensures SetPayout(s, p, amount).Ok? <==>
      (match p
       case Tf => amount <= 23014
       case EconDev => amount == 0
       case CoreDev => amount <= 13150
       case Rex => amount <= 1165
       case Ignite => amount <= 16438
       case Fuel => amount <= 55890)
    ensures SetPayout(s, p, amount).Ok? ==>
      var t := SetPayout(s, p, amount).value;
      && t == s.(rows := t.rows) && t.rows.Keys == s.rows.Keys + {p}
      && t.rows[p] == Payout(amount, if p.Rex? then 1800 else 86400, if p in s.rows then s.rows[p].last else s.now)
      && forall q :: q in s.rows && q != p ==> t.rows[q] == s.rows[q]
  {
  }

  lemma DelPayoutExactly(s: State, p: Payee)
    ensures DelPayout(s, p).Ok? <==> p in s.rows
    ensures DelPayout(s, p).Ok? ==> DelPayout(s, p).value == s.(rows := map q | q in s.rows && q != p :: s.rows[q])
  {
  }

  /** The caps in token units, over any run. */
  lemma CapsInUnits(start: nat, actions: seq<Action>)
    ensures var t := Run(Empty(start), actions);
      && start <= t.now && var days, halfHours := (t.now - start) / 86400, (t.now - start) / 1800;
      && SentTo(t, Tf) <= 230140000 * days && SentTo(t, EconDev) <= 0 && SentTo(t, CoreDev) <= 131500000 * days
      && SentTo(t, Ignite) <= 164380000 * days && SentTo(t, Fuel) <= 558900000 * days
      && SentTo(t, Rex) <= 11650000 * halfHours
  {
    hide Run;
    NeverAboveCap(start, actions, Tf);
    NeverAboveCap(start, actions, EconDev);
    NeverAboveCap(start, actions, CoreDev);
    NeverAboveCap(start, actions, Rex);
    NeverAboveCap(start, actions, Ignite);
    NeverAboveCap(start, actions, Fuel);
  }
}
