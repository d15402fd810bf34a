/** The REX pool row: shares, lent and unlent tokens, and the Bancor price of loans, all with floored divisions. */
module RexPool {
  import opened ExchangeState
  import opened Outcomes
  import opened Products

  const INIT_TOTAL_RENT := 200000000   // 20,000.0000 core tokens

  datatype Pool = Pool(lent: int, unlent: int, rent: int, lendable: int, rex: int, namebid: int, loanNum: int)

  /** Before the first purchase the pool has no row; that is modelled as a row with nothing in it. */
  predicate Unused(p: Pool) {
    p.rex == 0 && p.lendable == 0 && p.namebid == 0 && p.loanNum == 0
  }

  /** uint128_t( a ) * b / c. */
  function MulDiv(a: int, b: int, c: int): int
    requires c != 0
  {
    (a * b) / c
  }

  lemma MulDivFloor(a: int, b: int, c: int)
    requires 0 <= a && 0 <= b && 0 < c
    ensures 0 <= MulDiv(a, b, c) && MulDiv(a, b, c) * c <= a * b < MulDiv(a, b, c) * c + c
  {
    MulNonNeg(a, b);
  }

  /** add_to_rex_pool: the pool after `payment` has bought REX (at rex_ratio 10000 when there is none), and the REX received. */
  function AddToPool(p: Pool, initialized: bool, payment: int): Outcome<(Pool, int)> {
    if !initialized then
      Ok((Pool(0, payment, INIT_TOTAL_RENT, payment, payment * 10000, 0, 0), payment * 10000))
    else if p.rex <= 0 then
      Ok((p.(lent := 0, unlent := payment, rent := INIT_TOTAL_RENT, lendable := payment, rex := payment * 10000),
          payment * 10000))
    else
      :- Expected(p.lendable > 0, EmptyPool);
      var s1 := p.lendable + payment;
      var r1 := MulDiv(s1, p.rex, p.lendable);
      :- Expected(s1 - p.lent >= 0, NegativeUnlent);
      Ok((p.(lendable := s1, rex := r1, unlent := s1 - p.lent), r1 - p.rex))
  }

  /** add_loan_to_rex_pool. */
  function AddLoan(p: Pool, payment: int, rented: int, isNew: bool): Pool {
    var unlent := p.unlent - rented + payment;
    var lent := p.lent + rented;
    p.(rent := p.rent + payment, unlent := unlent, lent := lent, lendable := unlent + lent,
       loanNum := if isNew then p.loanNum + 1 else p.loanNum)
  }

  /** remove_loan_from_rex_pool. */
  function RemoveLoan(p: Pool, staked: int): Outcome<Pool> {
    var deltaRent :- BancorOutput(p.unlent, p.rent, staked);
    var unlent := p.unlent + staked;
    var lent := p.lent - staked;
    Ok(p.(rent := p.rent - deltaRent, unlent := unlent, lent := lent, lendable := unlent + lent))
  }

  /** What a fifth of the lent tokens amounts to: the part of the unlent tokens that sell orders may not touch. */
  function Reserve(p: Pool): int {
    (2 * p.lent) / 10
  }

  datatype Fill = Filled(proceeds: int, pool: Pool) | Unfilled

  /** The pool's side of fill_rex_order. */
  function FillOrder(p: Pool, rex: int): Outcome<Fill> {
    var holds := p.rex != 0;
    :- Expected(holds, DivisionByZero);
    var proceeds := MulDiv(rex, p.lendable, p.rex);
    if proceeds <= p.unlent - Reserve(p) then
      var lendable := p.lendable - proceeds;
      Ok(Filled(proceeds, p.(rex := p.rex - rex, lendable := lendable, unlent := lendable - p.lent)))
    else Ok(Unfilled)
  }

  /** channel_to_rex on the pool. */
  function AddFee(p: Pool, amount: int): Pool {
    p.(unlent := p.unlent + amount, lendable := p.lendable + amount)
  }

  // ---- what every pool satisfies

  /** Lendable tokens are the lent and the unlent ones, and there are lendable tokens exactly when there is REX. */
  predicate Balanced(p: Pool) {
    && p.lendable == p.unlent + p.lent
    && 0 <= p.lent && 0 <= p.unlent && 0 <= p.rent && 0 <= p.rex
    && (p.rex == 0 <==> p.lendable == 0)
  }

  /** The tokens one unit of REX is worth in q are at least those in p. */
  ghost predicate NotCheaper(p: Pool, q: Pool) {
    p.lendable * q.rex <= q.lendable * p.rex
  }

  /** Either no REX is left in q, or p had REX as well and its price did not fall on the way to q. */
  ghost predicate PriceHolds(p: Pool, q: Pool) {
    q.rex > 0 ==> p.rex > 0 && NotCheaper(p, q)
  }

  lemma PriceTransitive(p: Pool, q: Pool, r: Pool)
    requires Balanced(p) && Balanced(q) && Balanced(r) && PriceHolds(p, q) && PriceHolds(q, r)
    ensures PriceHolds(p, r)
  {
    if r.rex > 0 {
      Ratios(p.lendable, p.rex, q.lendable, q.rex, r.lendable, r.rex);
    }
  }

  lemma Ratios(a: int, b: int, c: int, d: int, e: int, f: int)
    requires a * d <= c * b && c * f <= e * d && 0 < b && 0 < d && 0 < f
    ensures a * f <= e * b
  {
    MulLe(a * d, c * b, f);
    MulLe(c * f, e * d, b);
    assert (a * d) * f == (a * f) * d && (c * b) * f == (c * f) * b && (e * d) * b == (e * b) * d;
    if e * b < a * f { MulLt(e * b, a * f, d); }
  }

  lemma SharesGrow(s0: int, r0: int, s1: int)
    requires 0 < s0 < s1 && 0 < r0
    ensures r0 <= MulDiv(s1, r0, s0)
  {
    MulDivFloor(s1, r0, s0);
    MulLe(s0, s1, r0);
    if MulDiv(s1, r0, s0) < r0 { MulLe(MulDiv(s1, r0, s0) + 1, r0, s0); }
  }

  lemma ReturnedAtMostPaid(s0: int, r0: int, payment: int, r1: int, proceeds: int)
    requires 0 < r1 && s0 * r1 <= (s0 + payment) * r0
    requires proceeds * r1 <= (r1 - r0) * (s0 + payment)
    ensures proceeds <= payment
  {
    assert (r1 - r0) * (s0 + payment) == r1 * s0 + r1 * payment - (s0 + payment) * r0;
    if payment < proceeds { MulLt(payment, proceeds, r1); }
  }

  /** With REX outstanding a payment enters the unlent tokens and mints MulDiv shares; neither check fires. */
  lemma AddToLivePool(p: Pool, payment: int)
    requires Balanced(p) && p.rex > 0 && 0 < payment
    ensures var r1 := MulDiv(p.lendable + payment, p.rex, p.lendable);
      && p.rex <= r1
      && AddToPool(p, true, payment)
         == Ok((p.(lendable := p.lendable + payment, rex := r1, unlent := p.unlent + payment), r1 - p.rex))
  {
    hide MulDiv;
    SharesGrow(p.lendable, p.rex, p.lendable + payment);
  }

  /** Without REX outstanding the pool starts over, and nothing is lost by it: it held no tokens. */
  lemma AddToEmptyPool(p: Pool, initialized: bool, payment: int)
    requires Balanced(p) && p.rex == 0 && 0 < payment && (!initialized ==> Unused(p))
    ensures p.lent == 0 && p.unlent == 0 && p.lendable == 0
    ensures AddToPool(p, initialized, payment)
         == Ok((p.(unlent := payment, rent := INIT_TOTAL_RENT, lendable := payment, rex := payment * 10000),
                payment * 10000))
  {
  }

  /** Buying REX keeps the pool balanced and never fails. */
  lemma AddToPoolBalanced(p: Pool, initialized: bool, payment: int)
    requires Balanced(p) && 0 < payment && (!initialized ==> Unused(p))
    ensures AddToPool(p, initialized, payment).Ok?
    ensures var (q, received) := AddToPool(p, initialized, payment).value;
      && Balanced(q) && 0 <= received && q.rex == p.rex + received && q.rex > 0
      && q.lendable == p.lendable + payment && q.lent == p.lent
      && q.loanNum == p.loanNum && q.namebid == p.namebid
  {
    hide MulDiv, AddToPool;
    if p.rex > 0 {
      AddToLivePool(p, payment);
    } else {
      AddToEmptyPool(p, initialized, payment);
    }
  }

  /** Nor does it lower the price. */
  lemma AddToPoolPrice(p: Pool, initialized: bool, payment: int)
    requires Balanced(p) && 0 < payment && (!initialized ==> Unused(p))
    ensures AddToPool(p, initialized, payment).Ok? ==> NotCheaper(p, AddToPool(p, initialized, payment).value.0)
  {
    hide MulDiv;
    if initialized && p.rex > 0 {
      MulDivFloor(p.lendable + payment, p.rex, p.lendable);
    }
  }

  /** Selling back at once exactly the REX just bought returns at most what was paid for it. */
  lemma SellBack(p: Pool, initialized: bool, payment: int)
    requires Balanced(p) && 0 < payment && (!initialized ==> Unused(p))
    ensures var (q, received) := AddToPool(p, initialized, payment).value;
      FillOrder(q, received).Ok? &&
      (FillOrder(q, received).value.Filled? ==> FillOrder(q, received).value.proceeds <= payment)
  {
    hide AddToPool, FillOrder, Balanced, NotCheaper;
    AddToPoolBalanced(p, initialized, payment);
    AddToPoolPrice(p, initialized, payment);
    var (q, received) := AddToPool(p, initialized, payment).value;
    BuyThenSell(p, q, payment, received);
  }

  lemma BuyThenSell(p: Pool, q: Pool, payment: int, received: int)
    requires Balanced(q) && q.rex > 0 && NotCheaper(p, q)
    requires q.rex == p.rex + received && q.lendable == p.lendable + payment && 0 <= received
    ensures FillOrder(q, received).Ok? &&
      (FillOrder(q, received).value.Filled? ==> FillOrder(q, received).value.proceeds <= payment)
  {
    hide MulDiv;
    MulDivFloor(received, q.lendable, q.rex);
    ReturnedAtMostPaid(p.lendable, p.rex, payment, q.rex, MulDiv(received, q.lendable, q.rex));
  }

  /** A filled order leaves at least a fifth of the lent tokens unlent, and never lowers the price. */
  lemma FillOrderBalanced(p: Pool, rex: int)
    requires Balanced(p) && 0 < rex <= p.rex
    ensures FillOrder(p, rex).Ok?
    ensures FillOrder(p, rex).value.Filled? ==>
      var q, proceeds := FillOrder(p, rex).value.pool, FillOrder(p, rex).value.proceeds;
      && Balanced(q) && 0 <= proceeds && q.lendable == p.lendable - proceeds && q.rex == p.rex - rex
      && q.lent == p.lent && q.loanNum == p.loanNum && q.namebid == p.namebid && q.rent == p.rent
      && Reserve(q) <= q.unlent && PriceHolds(p, q)
  {
    hide MulDiv;
    MulDivFloor(rex, p.lendable, p.rex);
    var proceeds := MulDiv(rex, p.lendable, p.rex);
    if proceeds <= p.unlent - Reserve(p) {
      SoldScalars(p.lendable, p.rex, rex, proceeds);
    }
  }

  lemma SoldScalars(s0: int, r0: int, rex: int, proceeds: int)
    requires 0 < s0 && 0 < rex <= r0 && proceeds * r0 <= rex * s0 < proceeds * r0 + r0
    ensures s0 * (r0 - rex) <= (s0 - proceeds) * r0
    ensures rex == r0 ==> proceeds == s0
    ensures rex < r0 ==> proceeds < s0
  {
    assert s0 * (r0 - rex) == s0 * r0 - rex * s0;
    assert (s0 - proceeds) * r0 == s0 * r0 - proceeds * r0;
    if rex == r0 {
      assert rex * s0 == s0 * r0;
      ExactQuotient(s0, r0, proceeds);
    } else {
      MulLt(rex, r0, s0);
      MulLtCancel(proceeds, s0, r0);
    }
  }

  lemma ExactQuotient(a: int, d: int, q: int)
    requires 0 < d && q * d <= a * d < q * d + d
    ensures q == a
  {
    if q < a { MulLe(q + 1, a, d); }
    if a < q { MulLe(a + 1, q, d); }
  }

  /** A loan moves rented tokens from unlent to lent and puts its payment into the pool. */
  lemma AddLoanBalanced(p: Pool, payment: int, rented: int, isNew: bool)
    requires Balanced(p) && p.rex > 0 && 0 < payment && 0 <= rented <= p.unlent
    ensures var q := AddLoan(p, payment, rented, isNew);
      && Balanced(q) && q.lendable == p.lendable + payment && q.rex == p.rex && PriceHolds(p, q)
      && q.lent == p.lent + rented && q.namebid == p.namebid
      && q.rent == p.rent + payment && q.unlent == p.unlent - rented + payment
      && q.loanNum == p.loanNum + if isNew then 1 else 0
  {
    MulLe(p.lendable, p.lendable + payment, p.rex);
  }

  /** Closing a loan moves its tokens back and changes neither the lendable tokens nor the REX. */
  lemma RemoveLoanBalanced(p: Pool, staked: int)
    requires Balanced(p) && 0 < staked <= p.lent
    ensures RemoveLoan(p, staked).Ok?
    ensures var q := RemoveLoan(p, staked).value;
      && Balanced(q) && q.lendable == p.lendable && q.rex == p.rex && q.lent == p.lent - staked
      && q.loanNum == p.loanNum && q.namebid == p.namebid && PriceHolds(p, q)
      && RentTaken(p, staked, p.rent - q.rent)
  {
    hide BancorOutput;
    BancorFloor(p.unlent, p.rent, staked);
  }

  /** The rent given up with a loan is what its stake is worth in rent, rounded down. */
  predicate RentTaken(p: Pool, staked: int, taken: int) {
    0 <= taken && taken * (p.unlent + staked) <= staked * p.rent < (taken + 1) * (p.unlent + staked)
  }

  /** What a payment rents: the floor of its share of the unlent tokens. */
  predicate Rents(p: Pool, payment: int, rented: int) {
    0 <= rented && rented * (p.rent + payment) <= payment * p.unlent < (rented + 1) * (p.rent + payment)
  }

  /** A loan makes the next one dearer: the product of the two balances does not fall, the payment left aside. */
  lemma LoanRaisesPrice(p: Pool, payment: int, rented: int, isNew: bool)
    requires Balanced(p) && p.rex > 0 && 0 < payment && rented <= p.unlent && Rents(p, payment, rented)
    ensures var q := AddLoan(p, payment, rented, isNew); p.rent * p.unlent <= q.rent * (q.unlent - payment)
  {
    AddLoanBalanced(p, payment, rented, isNew);
    ProductGrows(p.rent, p.unlent, payment, rented);
  }

  /** An equal payment right after a loan rents no more than the first. */
  lemma NextLoanNoCheaper(p: Pool, payment: int, rented: int, isNew: bool, next: int)
    requires Balanced(p) && p.rex > 0 && 0 < payment < rented <= p.unlent && Rents(p, payment, rented)
    requires Rents(AddLoan(p, payment, rented, isNew), payment, next)
    ensures next <= rented
  {
    AddLoanBalanced(p, payment, rented, isNew);
    var q := AddLoan(p, payment, rented, isNew);
    MulLe(q.unlent, p.unlent, payment);
    MulLe(p.rent + payment, q.rent + payment, rented + 1);
    if rented < next { MulLe(rented + 1, next, q.rent + payment); }
  }

  /** A purchase takes the floor of its share of the REX; without REX outstanding it gets 10000 for every token. */
  lemma AddToPoolExactly(p: Pool, initialized: bool, payment: int)
    requires Balanced(p) && 0 < payment && (!initialized ==> Unused(p))
    ensures AddToPool(p, initialized, payment).Ok?
    ensures var (q, received) := AddToPool(p, initialized, payment).value;
      && q.unlent == p.unlent + payment
      && (p.rex > 0 ==>
            && q.rent == p.rent
            && (p.rex + received) * p.lendable <= (p.lendable + payment) * p.rex < (p.rex + received + 1) * p.lendable)
      && (p.rex == 0 ==> q.rent == 200000000 && received == 10000 * payment)
  {
    hide AddToPool, MulDiv;
    if p.rex > 0 {
      AddToLivePool(p, payment);
      MulDivFloor(p.lendable + payment, p.rex, p.lendable);
      var r1 := MulDiv(p.lendable + payment, p.rex, p.lendable);
      assert (r1 + 1) * p.lendable == r1 * p.lendable + p.lendable;
    } else {
      AddToEmptyPool(p, initialized, payment);
    }
  }

  /** The floor of what the REX is worth. */
  predicate Worth(p: Pool, rex: int, proceeds: int) {
    0 <= proceeds && proceeds * p.rex <= rex * p.lendable < (proceeds + 1) * p.rex
  }

  lemma WorthUnique(p: Pool, rex: int, a: int, b: int)
    requires 0 < p.rex && Worth(p, rex, a) && Worth(p, rex, b)
    ensures a == b
  {
    if a < b { MulLe(a + 1, b, p.rex); }
    if b < a { MulLe(b + 1, a, p.rex); }
  }

  /** An order is filled exactly when a fifth of the lent tokens stays unlent, and then at what the REX is worth. */
  lemma FillOrderExactly(p: Pool, rex: int, proceeds: int)
    requires Balanced(p) && 0 < rex <= p.rex && Worth(p, rex, proceeds)
    ensures FillOrder(p, rex).Ok?
    ensures FillOrder(p, rex).value.Filled? <==> p.lent < 5 * (p.unlent - proceeds + 1)
    ensures FillOrder(p, rex).value.Filled? ==>
      FillOrder(p, rex).value == Filled(proceeds, p.(rex := p.rex - rex, lendable := p.lendable - proceeds,
                                                     unlent := p.unlent - proceeds))
  {
    hide MulDiv;
    MulDivFloor(rex, p.lendable, p.rex);
    var f := MulDiv(rex, p.lendable, p.rex);
    assert (f + 1) * p.rex == f * p.rex + p.rex;
    WorthUnique(p, rex, f, proceeds);
  }

  lemma AddFeeBalanced(p: Pool, amount: int)
    requires Balanced(p) && p.rex > 0 && 0 < amount
    ensures Balanced(AddFee(p, amount)) && PriceHolds(p, AddFee(p, amount))
    ensures AddFee(p, amount).unlent == p.unlent + amount
  {
    MulLe(p.lendable, p.lendable + amount, p.rex);
  }
}
