/** The payout contract: capped amounts per interval, paid whenever anyone asks, the REX share split with the EVM. */
module Tedp {
  import opened Outcomes
  import opened Products

  datatype Payee = Tf | EconDev | CoreDev | Rex | Ignite | Fuel

  /** The most a setter accepts, in whole tokens per interval. */
  function Cap(p: Payee): nat {
    match p
    case Tf => 23014
    case EconDev => 0
    case CoreDev => 13150
    case Rex => 1165
    case Ignite => 16438
    case Fuel => 55890
  }

  /** Seconds between payouts. */
  function Interval(p: Payee): (i: nat)
    ensures i > 0
  {
    if p.Rex? then 1800 else 86400
  }

  datatype Payout = Payout(amount: nat, interval: nat, last: nat)

  /** The clock, the payouts table, and what has been sent for each payee, the REX payee's part both ways. */
  datatype State = State(now: nat, rows: map<Payee, Payout>, sent: map<Payee, int>, viaRex: int, toEvm: int)

  function SentTo(s: State, p: Payee): int {
    if p in s.sent then s.sent[p] else 0
  }

  /** round(): to the nearest integer, halves away from zero. */
  function Round(x: real): int {
    if x >= 0.0 then (x + 0.5).Floor else -((0.5 - x).Floor)
  }

  /**
   * What is sent through distviarex and what to the EVM. A negative share traps on its way into uint64_t, and a share of
   * zero is sent all the same: the transfer behind distviarex then refuses it and with it the whole payment.
   */
  function Split(total: int, ratio: real): Outcome<(int, int)> {
    var payout := if ratio >= 0.0 then Round(total as real * (1.0 - ratio)) else 0;
    :- Expected(payout >= 0, NegativeAmount);
    :- Check(ratio < 0.0 || payout > 0);
    Ok((payout, if ratio != 0.0 && payout < total then total - payout else 0))
  }

  /** One row of pay: the state after it, and whether anything was paid. */
  function PayRow(s: State, p: Payee, ratio: real): Outcome<(State, bool)> {
    if p !in s.rows then Ok((s, false))
    else
      var row := s.rows[p];
      :- Expected(row.interval != 0, DivisionByZero);
      var due := (s.now - row.last) / row.interval;
      if due == 0 then Ok((s, false))
      else
        var t := s.(rows := s.rows[p := row.(last := s.now)]);
        if row.amount == 0 then Ok((t, false))
        else
          var total := due * row.amount * 10000;
          if p.Rex? then
            var (payout, evm) :- Split(total, ratio);
            Ok((t.(viaRex := s.viaRex + payout, toEvm := s.toEvm + evm, sent := s.sent[p := SentTo(s, p) + total]), true))
          else
            Ok((t.(sent := s.sent[p := SentTo(s, p) + total]), true))
  }

  function PayRows(s: State, ps: seq<Payee>, ratio: real): Outcome<(State, bool)>
    decreases |ps|
  {
    if ps == [] then Ok((s, false))
    else
      var (t, made) :- PayRow(s, ps[0], ratio);
      var (u, more) :- PayRows(t, ps[1..], ratio);
      Ok((u, made || more))
  }

  /** The payees in the order of their account names. */
  function Everyone(): seq<Payee> {
    [EconDev, Rex, Ignite, Tf, Fuel, CoreDev]
  }

  /** pay, when the tokens it sends can be sent. */
  function Pay(s: State, ratio: real, covered: bool): Outcome<State> {
    var (t, made) :- PayRows(s, Everyone(), ratio);
    :- Check(made);
    :- Check(covered);
    Ok(t)
  }

  /** settf, setecondev, setcoredev, setrex, setignite and setfuel. */
  function SetPayout(s: State, p: Payee, amount: nat): Outcome<State> {
    var allowed := amount <= Cap(p);
    :- Check(allowed);
    var row := if p in s.rows then s.rows[p].(amount := amount, interval := Interval(p))
               else Payout(amount, Interval(p), s.now);
    Ok(s.(rows := s.rows[p := row]))
  }

  function DelPayout(s: State, p: Payee): Outcome<State> {
    var allowed := p in s.rows;
    :- Check(allowed);
    Ok(s.(rows := s.rows - {p}))
  }

  datatype Action =
    | Set(payee: Payee, amount: nat)
    | Delete(payee: Payee)
    | PayOut(ratio: real, covered: bool)
    | Wait(seconds: nat)

  function Step(s: State, a: Action): Outcome<State> {
    match a
    case Set(p, amount) => SetPayout(s, p, amount)
    case Delete(p) => DelPayout(s, p)
    case PayOut(ratio, covered) => Pay(s, ratio, covered)
    case Wait(seconds) => Ok(s.(now := s.now + seconds))
  }

  function After(s: State, a: Action): State {
    if Step(s, a).Ok? then Step(s, a).value else s
  }

  function Run(s: State, actions: seq<Action>): State
    decreases |actions|
  {
    if actions == [] then s else Run(After(s, actions[0]), actions[1..])
  }

  // ---- the split

  /** The split goes through: nothing for REX, or a share for REX that does not round down to nothing. */
  predicate Splits(total: int, ratio: real) {
    ratio < 0.0 || total as real * (1.0 - ratio) >= 0.5
  }

  /**
   * Whatever goes through distviarex and to the EVM adds up to the payout, and a payout fails exactly when the ratio
   * leaves REX a share, but one of less than half a unit.
   */
  lemma SplitExactly(total: int, ratio: real)
    requires total > 0
    ensures Split(total, ratio).Ok? <==> Splits(total, ratio)
    ensures Split(total, ratio).Ok? ==>
      var (payout, evm) := Split(total, ratio).value; payout + evm == total && 0 <= payout && 0 <= evm
  {
    if ratio >= 0.0 {
      var x := total as real * (1.0 - ratio);
      Scaled(total as real, ratio);
      RoundBounds(x, total);
    }
  }

  lemma Scaled(a: real, r: real)
    requires a > 0.0 && r >= 0.0
    ensures a * (1.0 - r) <= a
    ensures r == 0.0 ==> a * (1.0 - r) == a
  {
  }

  lemma RoundBounds(x: real, total: int)
    requires x <= total as real && total > 0
    ensures Round(x) <= total
    ensures Round(x) > 0 <==> x >= 0.5
    ensures x == total as real ==> Round(x) == total
  {
  }

  /**
   * getbalanceratio, for a ratio in percent, the EVM's balance in its own units, 10^14 to one of the token's, and the
   * lendable tokens of REX.
   */
  function BalanceRatio(percent: nat, balance: nat, rex: nat): real {
    var evm := balance / 100000000000000;
    if balance == 0 then 0.0
    else if rex == 0 then -1.0
    else (evm as real * (percent as real / 100.0)) / ((rex + evm) as real)
  }

  /** The ratio is -1 or not negative, positive only if REX has tokens to lend, and below 1 unless EVM times percent reaches the whole. */
  lemma RatioFits(percent: nat, balance: nat, rex: nat)
    ensures var r, evm := BalanceRatio(percent, balance, rex), balance / 100000000000000;
      && (r == -1.0 || 0.0 <= r) && (r > 0.0 ==> rex > 0)
      && (r < 1.0 <==> balance == 0 || rex == 0 || evm * percent < 100 * (rex + evm))
  {
    if balance != 0 && rex != 0 {
      var evm: nat := balance / 100000000000000;
      ShareBelowWhole(evm, percent, rex + evm);
    }
  }

  lemma ShareBelowWhole(evm: nat, percent: nat, whole: nat)
    requires whole > 0
    ensures var r := (evm as real * (percent as real / 100.0)) / (whole as real);
      0.0 <= r && (r < 1.0 <==> evm * percent < 100 * whole)
  {
    var n := evm as real * (percent as real / 100.0);
    PercentOf(evm, percent);
    Fraction(n, whole as real);
    var m := evm * percent;
    assert n == m as real / 100.0;
  }

  lemma PercentOf(evm: nat, percent: nat)
    ensures 0.0 <= evm as real * (percent as real / 100.0) == (evm * percent) as real / 100.0
  {
    assert evm as real * percent as real == (evm * percent) as real;
  }

  lemma Fraction(n: real, d: real)
    requires 0.0 <= n && 0.0 < d
    ensures 0.0 <= n / d && (n / d < 1.0 <==> n < d) && (n == d ==> n / d == 1.0)
  {
    var q := n / d;
    assert q * d == n;
    if q < 1.0 {
      assert (1.0 - q) * d > 0.0;
    } else {
      assert (q - 1.0) * d >= 0.0;
    }
    QuotientNonNegative(n, d);
  }

  lemma QuotientNonNegative(n: real, d: real)
    requires 0.0 <= n && 0.0 < d
    ensures 0.0 <= n / d
  {
  }

  /** At 150 percent, with twice as much in the EVM as REX has to lend, the ratio is 1 and no payout to REX goes through. */
  lemma HalfAsMuchAgainFails(rex: nat, total: nat)
    requires rex > 0 && total > 0
    ensures BalanceRatio(150, 2 * rex * 100000000000000, rex) == 1.0
    ensures Split(total, 1.0).Refused?
  {
    var evm := 2 * rex;
    DivModUnique(evm * 100000000000000, 100000000000000, evm, 0);
    Fraction(evm as real * (150 as real / 100.0), (rex + evm) as real);
  }

  /** At 100 percent one token unit to lend against 30000 in the EVM leaves a REX share of a third of a unit. */
  lemma EvenShareFails()
    ensures var ratio := BalanceRatio(100, 3000000000000000000, 1);
      0.0 < ratio < 1.0 && Split(10000, ratio).Refused?
  {
    DivModUnique(3000000000000000000, 100000000000000, 30000, 0);
    var ratio := 30000.0 / 30001.0;
    assert 30000 as real * (100 as real / 100.0) == 30000.0;
    assert BalanceRatio(100, 3000000000000000000, 1) == ratio;
    assert 0.0 < 10000.0 * (1.0 - ratio) < 0.5;
  }

  // ---- when pay goes through

  /** What a row has due, in token units. */
  function Due(s: State, p: Payee): nat
    requires InTime(s)
  {
    if p in s.rows then (s.now - s.rows[p].last) / s.rows[p].interval * s.rows[p].amount * 10000 else 0
  }

  predicate InTime(s: State) {
    forall q :: q in s.rows ==> s.rows[q].interval > 0 && s.rows[q].last <= s.now
  }

  /** One row pays exactly when something is due, and fails exactly when that is for REX and does not split. */
  lemma PayRowExactly(s: State, p: Payee, ratio: real)
    requires InTime(s)
    ensures PayRow(s, p, ratio).Ok? <==> (p.Rex? && Due(s, p) > 0 ==> Splits(Due(s, p), ratio))
    ensures PayRow(s, p, ratio).Ok? ==> (PayRow(s, p, ratio).value.1 <==> Due(s, p) > 0)
  {
    hide Split, Splits;
    if p in s.rows {
      var row := s.rows[p];
      var due := (s.now - row.last) / row.interval;
      DueAmount(due, row.amount);
      if Due(s, p) > 0 && p.Rex? {
        SplitExactly(Due(s, p), ratio);
      }
    }
  }

  /** What the others have due stays as it is. */
  lemma PayRowFrame(s: State, p: Payee, ratio: real)
    requires InTime(s) && PayRow(s, p, ratio).Ok?
    ensures var t := PayRow(s, p, ratio).value.0;
      InTime(t) && forall q :: q != p ==> Due(t, q) == Due(s, q)
  {
    hide Split;
  }

  lemma DueAmount(due: nat, amount: nat)
    ensures due * amount * 10000 > 0 <==> due != 0 && amount != 0
  {
  }

  lemma {:induction false} PayRowsExactly(s: State, ps: seq<Payee>, ratio: real)
    requires InTime(s) && forall i, j :: 0 <= i < j < |ps| ==> ps[i] != ps[j]
    ensures PayRows(s, ps, ratio).Ok? <==> (Rex in ps && Due(s, Rex) > 0 ==> Splits(Due(s, Rex), ratio))
    ensures PayRows(s, ps, ratio).Ok? ==> (PayRows(s, ps, ratio).value.1 <==> exists p :: p in ps && Due(s, p) > 0)
    decreases |ps|
  {
    hide PayRow, Due, Splits;
    if ps == [] {
    } else {
      var p, rest := ps[0], ps[1..];
      PayRowExactly(s, p, ratio);
      assert p !in rest;
      assert forall q :: q in ps <==> q == p || q in rest;
      if PayRow(s, p, ratio).Ok? {
        PayRowFrame(s, p, ratio);
        var (t, made) := PayRow(s, p, ratio).value;
        PayRowsExactly(t, rest, ratio);
        assert forall q :: q in rest ==> Due(t, q) == Due(s, q);
      } else {
        assert p == Rex;
      }
    }
  }

  /**
   * pay goes through exactly when something is due, the tokens for it are there, and what is due to REX splits: a REX
   * share that rounds to nothing holds up the payments to everyone.
   */
  lemma PayExactly(s: State, ratio: real, covered: bool)
    requires InTime(s)
    ensures Pay(s, ratio, covered).Ok? <==>
      covered && (exists p :: Due(s, p) > 0) && (Due(s, Rex) > 0 ==> Splits(Due(s, Rex), ratio))
  {
    hide PayRows, Due, Splits;
    PayRowsExactly(s, Everyone(), ratio);
    forall p: Payee
      ensures p in Everyone()
    {
      EveryoneIsPaid(p);
    }
  }

  lemma EveryoneIsPaid(p: Payee)
    ensures p in Everyone()
  {
    var i := match p
      case EconDev => 0
      case Rex => 1
      case Ignite => 2
      case Tf => 3
      case Fuel => 4
      case CoreDev => 5;
    assert Everyone()[i] == p;
  }

  // ---- the caps

  /** What may have been sent for p between two times. */
  function Allowance(p: Payee, from: nat, to: nat): int
    requires from <= to
  {
    Cap(p) * 10000 * ((to - from) / Interval(p))
  }

  predicate RowSound(s: State, start: nat, p: Payee)
    requires start <= s.now
  {
    if p in s.rows then
      && s.rows[p].amount <= Cap(p) && s.rows[p].interval == Interval(p) && start <= s.rows[p].last <= s.now
      && SentTo(s, p) <= Allowance(p, start, s.rows[p].last)
    else SentTo(s, p) <= Allowance(p, start, s.now)
  }

  /** Every payee has been sent no more than its cap allows since `start`, and the REX share is accounted for. */
  predicate Sound(s: State, start: nat) {
    start <= s.now && (forall p :: RowSound(s, start, p)) && SentTo(s, Rex) == s.viaRex + s.toEvm
  }

  /** Whole intervals of two periods are whole intervals of both together. */
  lemma IntervalsAdd(a: nat, b: nat, i: nat)
    requires i > 0
    ensures a / i + b / i <= (a + b) / i
  {
    var q, r := a / i, b / i;
    assert q * i <= a && r * i <= b;
    assert (q + r) * i <= a + b;
    var m := (a + b) / i;
    if m < q + r { MulLe(m + 1, q + r, i); }
  }

  lemma AllowanceGrows(p: Payee, from: nat, mid: nat, to: nat, amount: nat)
    requires from <= mid <= to && amount <= Cap(p)
    ensures Allowance(p, from, mid) + (to - mid) / Interval(p) * amount * 10000 <= Allowance(p, from, to)
    ensures Allowance(p, from, mid) <= Allowance(p, from, to)
  {
    hide Cap, Interval;
    var i := Interval(p);
    IntervalsAdd(mid - from, to - mid, i);
    CapCovers(Cap(p), amount, (mid - from) / i, (to - mid) / i, (to - from) / i);
  }

  lemma CapCovers(cap: nat, amount: nat, before: nat, due: nat, both: nat)
    requires amount <= cap && before + due <= both
    ensures cap * 10000 * before + due * amount * 10000 <= cap * 10000 * both
    ensures cap * 10000 * before <= cap * 10000 * both
  {
    MulLe(amount, cap, due);
    MulLe(before + due, both, cap);
    MulNonNeg(due, cap);
    Scale(cap, before);
    Scale(cap, both);
    var x, y, z := before * cap, due * cap, both * cap;
    assert (before + due) * cap == x + y;
    assert amount * due * 10000 == due * amount * 10000;
  }

  lemma Scale(cap: int, n: int)
    ensures cap * 10000 * n == 10000 * (n * cap)
  {
  }

  lemma PayRowSound(s: State, start: nat, p: Payee, ratio: real)
    requires Sound(s, start)
    ensures PayRow(s, p, ratio).Ok? ==> Sound(PayRow(s, p, ratio).value.0, start)
  {
    hide PayRow, RowSound;
    if PayRow(s, p, ratio).Ok? {
      assert RowSound(s, start, p);
      PayRowCapped(s, start, p, ratio);
      PayRowConserves(s, start, p, ratio);
      RowsSound(s, start, p, PayRow(s, p, ratio).value.0);
    }
  }

  /** The row paid stays within its cap. */
  lemma PayRowCapped(s: State, start: nat, p: Payee, ratio: real)
    requires start <= s.now && RowSound(s, start, p) && PayRow(s, p, ratio).Ok?
    ensures PayRow(s, p, ratio).value.0.now == s.now && RowSound(PayRow(s, p, ratio).value.0, start, p)
  {
    hide Split, Allowance;
    if p in s.rows {
      var row := s.rows[p];
      AllowanceGrows(p, start, row.last, s.now, row.amount);
      AllowanceGrows(p, start, row.last, s.now, 0);
    }
  }

  /** The REX payee's part went one way or the other, and nothing else changes. */
  lemma PayRowConserves(s: State, start: nat, p: Payee, ratio: real)
    requires start <= s.now && RowSound(s, start, p) && PayRow(s, p, ratio).Ok?
    ensures var t := PayRow(s, p, ratio).value.0;
      && SentTo(t, Rex) - t.viaRex - t.toEvm == SentTo(s, Rex) - s.viaRex - s.toEvm
      && (forall q :: q != p ==> (q in s.rows <==> q in t.rows) && SentTo(t, q) == SentTo(s, q))
      && (forall q :: q != p && q in s.rows ==> t.rows[q] == s.rows[q])
  {
    hide Split, Splits, Allowance;
    if p in s.rows && p.Rex? {
      var row := s.rows[p];
      var due := (s.now - row.last) / row.interval;
      DueAmount(due, row.amount);
      if due != 0 && row.amount != 0 {
        SplitExactly(due * row.amount * 10000, ratio);
      }
    }
  }

  /** The rows of all others stay as they are. */
  lemma RowsSound(s: State, start: nat, p: Payee, t: State)
    requires Sound(s, start) && start <= t.now == s.now && RowSound(t, start, p)
    requires forall q :: q != p ==> (q in s.rows <==> q in t.rows) && SentTo(t, q) == SentTo(s, q)
    requires forall q :: q != p && q in s.rows ==> t.rows[q] == s.rows[q]
    ensures forall q :: RowSound(t, start, q)
  {
    hide Allowance;
    forall q
      ensures RowSound(t, start, q)
    {
      assert RowSound(s, start, q);
    }
  }

  lemma {:induction false} PayRowsSound(s: State, start: nat, ps: seq<Payee>, ratio: real)
    requires Sound(s, start)
    ensures PayRows(s, ps, ratio).Ok? ==> Sound(PayRows(s, ps, ratio).value.0, start)
    decreases |ps|
  {
    hide Sound, PayRow;
    if ps == [] {
    } else {
      PayRowSound(s, start, ps[0], ratio);
      if PayRow(s, ps[0], ratio).Ok? {
        PayRowsSound(PayRow(s, ps[0], ratio).value.0, start, ps[1..], ratio);
      }
    }
  }

  lemma StepSound(s: State, start: nat, a: Action)
    requires Sound(s, start)
    ensures Sound(After(s, a), start)
  {
    hide PayRows, Allowance;
    match a
    case PayOut(ratio, covered) => PayRowsSound(s, start, Everyone(), ratio);
    case _ => OtherSound(s, start, a);
  }

  lemma OtherSound(s: State, start: nat, a: Action)
    requires Sound(s, start) && !a.PayOut?
    ensures Sound(After(s, a), start)
  {
    hide Allowance;
    var t := After(s, a);
    forall p
      ensures RowSound(t, start, p)
    {
      assert RowSound(s, start, p);
      AllowanceGrows(p, start, s.now, t.now, 0);
      if p in s.rows {
        AllowanceGrows(p, start, s.rows[p].last, s.now, 0);
      }
    }
  }

  lemma {:induction false} RunSound(s: State, start: nat, actions: seq<Action>)
    requires Sound(s, start)
    ensures Sound(Run(s, actions), start)
    decreases |actions|
  {
    hide Sound, Step;
    if actions == [] {
    } else {
      StepSound(s, start, actions[0]);
      RunSound(After(s, actions[0]), start, actions[1..]);
    }
  }

  /** Nothing set up and nothing sent at time `start`. */
  function Empty(start: nat): State {
    State(start, map[], map[], 0, 0)
  }

  /**
   * Over any run of setters, delpayout and pay, no payee is sent more than its cap for every whole interval that has
   * passed since the start, however often pay is called, and the REX payee's part went through distviarex or to the
   * EVM, neither losing nor adding a unit.
   */
  lemma NeverAboveCap(start: nat, actions: seq<Action>, p: Payee)
    ensures var t := Run(Empty(start), actions);
      && start <= t.now
      && SentTo(t, p) <= Cap(p) * 10000 * ((t.now - start) / Interval(p))
      && SentTo(t, Rex) == t.viaRex + t.toEvm
  {
    hide Run;
    EmptySound(start);
    RunSound(Empty(start), start, actions);
    var t := Run(Empty(start), actions);
    assert RowSound(t, start, p);
    if p in t.rows {
      AllowanceGrows(p, start, t.rows[p].last, t.now, 0);
    }
  }

  lemma EmptySound(start: nat)
    ensures Sound(Empty(start), start)
  {
  }

  // ---- the rows themselves

  class Contract {
    var now: nat
    var rows: map<Payee, Payout>
    ghost var sent: map<Payee, int>
    ghost var viaRex: int
    ghost var toEvm: int

    ghost function Rows(): State
      reads this
    {
      State(now, rows, sent, viaRex, toEvm)
    }

    constructor (start: nat)
      ensures Rows() == Empty(start)
    {
      now, rows, sent, viaRex, toEvm := start, map[], map[], 0, 0;
    }

    /** The private setpayout. */
    method WritePayout(p: Payee, amount: nat, interval: nat)
      modifies `rows
      ensures rows == old(rows)[p := if p in old(rows) then old(rows)[p].(amount := amount, interval := interval)
                                     else Payout(amount, interval, now)]
    {
      if p !in rows {
        rows := rows[p := Payout(amount, interval, now)];
      } else {
        rows := rows[p := rows[p].(amount := amount, interval := interval)];
      }
    }

    /** The six setters, told apart by their payee. */
    method Set(p: Payee, amount: nat) returns (out: Outcome<()>)
      modifies `rows
      ensures if out.Ok? then SetPayout(old(Rows()), p, amount) == Ok(Rows())
              else SameFailure(out, SetPayout(old(Rows()), p, amount))
    {
      var allowed := amount <= Cap(p);
      :- Check(allowed);
      WritePayout(p, amount, Interval(p));
      return Ok(());
    }

    method Delete(p: Payee) returns (out: Outcome<()>)
      modifies `rows
      ensures if out.Ok? then DelPayout(old(Rows()), p) == Ok(Rows()) else SameFailure(out, DelPayout(old(Rows()), p))
    {
      var allowed := p in rows;
      :- Check(allowed);
      rows := rows - {p};
      return Ok(());
    }

    /** One turn of the loop of pay. */
    method PayOne(p: Payee, ratio: real) returns (out: Outcome<bool>)
      modifies this
      ensures if out.Ok? then PayRow(old(Rows()), p, ratio) == Ok((Rows(), out.value))
              else SameFailure(out, PayRow(old(Rows()), p, ratio))
    {
      hide Split;
      if p !in rows {
        return Ok(false);
      }
      var row := rows[p];
      var timeSinceLastPayout := now - row.last;
      :- Expected(row.interval != 0, DivisionByZero);
      var payoutsDue := timeSinceLastPayout / row.interval;
      if payoutsDue == 0 {
        return Ok(false);
      }
      rows := rows[p := row.(last := now)];
      if row.amount == 0 {
        return Ok(false);
      }
      var totalDue := payoutsDue * row.amount * 10000;
      if p.Rex? {
        var parts :- Split(totalDue, ratio);
        viaRex := viaRex + parts.0;
        toEvm := toEvm + parts.1;
      }
      sent := sent[p := SentTo(Rows(), p) + totalDue];
      return Ok(true);
    }

    method PayAll(ratio: real, covered: bool) returns (out: Outcome<()>)
      modifies this
      ensures if out.Ok? then Pay(old(Rows()), ratio, covered) == Ok(Rows()) else SameFailure(out, Pay(old(Rows()), ratio, covered))
    {
      hide PayRow;
      var payoutsMade := false;
      var payees := Everyone();
      var i := 0;
      while i < |payees|
        invariant i <= |payees| && payees == Everyone()
        invariant Continues(PayRows(old(Rows()), payees, ratio), payoutsMade, PayRows(Rows(), payees[i..], ratio))
      {
        var made :- PayOne(payees[i], ratio);
        payoutsMade := payoutsMade || made;
        i := i + 1;
      }
      :- Check(payoutsMade);
      :- Check(covered);
      return Ok(());
    }
  }

  /** What is left of the loop leads where the whole loop does. */
  predicate Continues(whole: Outcome<(State, bool)>, made: bool, rest: Outcome<(State, bool)>) {
    if rest.Ok? then whole == Ok((rest.value.0, made || rest.value.1)) else whole == rest
  }
}
