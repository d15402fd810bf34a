/** An owner's REX balance: matured REX, daily maturity buckets and the savings bucket that never matures. */
module RexMaturities {
  import opened Outcomes

  const SECONDS_PER_DAY := 86400
  const END_OF_DAYS := 4294967295   // time_point_sec::maximum()

  datatype Bucket = Bucket(time: int, amount: int)

  datatype Balance = Balance(rex: int, matured: int, buckets: seq<Bucket>)

  /** Five days after the start of the day of `sec`. */
  function Maturity(sec: int): int {
    sec - sec % SECONDS_PER_DAY + 5 * SECONDS_PER_DAY
  }

  /** The clock stays at least six days clear of the end of the 32-bit time line. */
  predicate Clock(sec: int) {
    0 <= sec && Maturity(sec) < END_OF_DAYS
  }

  function Total(bs: seq<Bucket>): int {
    if bs == [] then 0 else Total(bs[..|bs| - 1]) + bs[|bs| - 1].amount
  }

  // ---- the operations on one balance row

  /** process_rex_maturities: pop buckets from the front while their time has come. */
  function Mature(b: Balance, sec: int): (r: Balance)
    ensures r.rex == b.rex
    decreases |b.buckets|
  {
    if b.buckets != [] && b.buckets[0].time <= sec then
      Mature(b.(matured := b.matured + b.buckets[0].amount, buckets := b.buckets[1..]), sec)
    else b
  }

  predicate HasSavings(b: Balance) {
    b.buckets != [] && b.buckets[|b.buckets| - 1].time == END_OF_DAYS
  }

  /** What read_rex_savings returns. */
  function Savings(b: Balance): int {
    if HasSavings(b) then b.buckets[|b.buckets| - 1].amount else 0
  }

  /** What read_rex_savings leaves behind. */
  function WithoutSavings(b: Balance): (r: Balance)
    ensures r.rex == b.rex && r.matured == b.matured
  {
    if HasSavings(b) then b.(buckets := b.buckets[..|b.buckets| - 1]) else b
  }

  /** Add to the last bucket when it already has this time, else append a bucket. */
  function AddBucket(b: Balance, time: int, amount: int): (r: Balance)
    ensures r.rex == b.rex && r.matured == b.matured
  {
    var n := |b.buckets|;
    if n > 0 && b.buckets[n - 1].time == time then
      b.(buckets := b.buckets[n - 1 := Bucket(time, b.buckets[n - 1].amount + amount)])
    else
      b.(buckets := b.buckets + [Bucket(time, amount)])
  }

  /** put_rex_savings. */
  function PutSavings(b: Balance, amount: int): (r: Balance)
    ensures r.rex == b.rex && r.matured == b.matured
  {
    if amount == 0 then b else AddBucket(b, END_OF_DAYS, amount)
  }

  /** The part of add_to_rex_balance that files the REX just bought. */
  function Credit(b: Balance, received: int, sec: int): Balance {
    var plain := Mature(WithoutSavings(b.(rex := b.rex + received)), sec);
    PutSavings(AddBucket(plain, Maturity(sec), received), Savings(b))
  }

  /** What fill_rex_order takes from the row. */
  function Debit(b: Balance, sold: int): Balance {
    b.(rex := b.rex - sold, matured := b.matured - sold)
  }

  /** consolidate_rex_balance: everything outside the sell order and the savings into one bucket. */
  function Consolidate(b: Balance, inOrder: int, sec: int): Balance {
    var plain := WithoutSavings(b);
    var total := plain.matured - inOrder + Total(plain.buckets);
    var emptied := plain.(matured := inOrder, buckets := []);
    PutSavings(if total > 0 then AddBucket(emptied, Maturity(sec), total) else emptied, Savings(b))
  }

  /** The loop of mvtosavings: take from the buckets that mature last until `rex` has been moved. */
  function TakeFromBack(bs: seq<Bucket>, moved: int, rex: int): (seq<Bucket>, int)
    decreases |bs|, rex - moved
  {
    if bs == [] || moved >= rex then (bs, moved)
    else
      var n := |bs|;
      var drex := if rex - moved <= bs[n - 1].amount then rex - moved else bs[n - 1].amount;
      if bs[n - 1].amount - drex == 0 then TakeFromBack(bs[..n - 1], moved + drex, rex)
      else TakeFromBack(bs[n - 1 := Bucket(bs[n - 1].time, bs[n - 1].amount - drex)], moved + drex, rex)
  }

  /** mvtosavings on the row, for an owner with `inOrder` REX in an open sell order. */
  function MoveToSavings(b: Balance, rex: int, inOrder: int, sec: int): Outcome<Balance> {
    var savings := Savings(b);
    :- Check(rex + inOrder + savings <= b.rex);
    var plain := Mature(WithoutSavings(b), sec);
    var (rest, moved) := TakeFromBack(plain.buckets, 0, rex);
    var matured := if moved < rex then plain.matured - (rex - moved) else plain.matured;
    :- Expected(moved < rex ==> inOrder <= matured, SavingsLogic);
    :- Expected(moved < rex || moved == rex, SavingsProgrammer);
    Ok(PutSavings(plain.(matured := matured, buckets := rest), savings + rex))
  }

  /** mvfrsavings on the row. */
  function MoveFromSavings(b: Balance, rex: int, sec: int): Outcome<Balance> {
    var savings := Savings(b);
    :- Check(rex <= savings);
    var plain := Mature(WithoutSavings(b), sec);
    Ok(PutSavings(AddBucket(plain, Maturity(sec), rex), savings - rex))
  }

  lemma SavingsOfGrown(b: Balance, received: int)
    ensures Savings(b.(rex := b.rex + received)) == Savings(b)
  {
  }

  // ---- what every row satisfies

  predicate Increasing(bs: seq<Bucket>) {
    forall i, j :: 0 <= i < j < |bs| ==> bs[i].time < bs[j].time
  }

  predicate NonNegative(bs: seq<Bucket>) {
    forall i :: 0 <= i < |bs| ==> 0 <= bs[i].amount
  }

  /** Every bucket but a last savings bucket matures within five days. */
  predicate Within(bs: seq<Bucket>, last: int) {
    forall i :: 0 <= i < |bs| ==> bs[i].time <= last || (i == |bs| - 1 && bs[i].time == END_OF_DAYS)
  }

  /**
   * The balance is the matured REX plus the buckets plus `held` taken out of the row for the moment, the bucket
   * times strictly increase with any savings bucket last, and nothing is negative.
   */
  predicate Sound(b: Balance, sec: int, held: int) {
    && b.rex == b.matured + Total(b.buckets) + held
    && 0 <= b.matured
    && Increasing(b.buckets)
    && NonNegative(b.buckets)
    && Within(b.buckets, Maturity(sec))
  }

  /** A row whose savings bucket has been read out. */
  predicate Plain(b: Balance, sec: int, held: int) {
    Sound(b, sec, held) && forall i :: 0 <= i < |b.buckets| ==> b.buckets[i].time <= Maturity(sec)
  }

  lemma {:induction false} TotalFront(bs: seq<Bucket>)
    requires bs != []
    ensures Total(bs) == bs[0].amount + Total(bs[1..])
  {
    if |bs| <= 1 {
    } else {
      var n := |bs|;
      TotalFront(bs[..n - 1]);
      assert bs[..n - 1][1..] == bs[1..][..n - 2];
    }
  }

  lemma {:induction false} TotalNonNegative(bs: seq<Bucket>)
    requires NonNegative(bs)
    ensures 0 <= Total(bs)
  {
    if bs == [] {
    } else {
      TotalNonNegative(bs[..|bs| - 1]);
    }
  }

  lemma MaturityMonotone(sec: int, later: int)
    requires sec <= later
    ensures Maturity(sec) <= Maturity(later)
    ensures sec < Maturity(sec)
  {
  }

  /** Time passing keeps a row sound. */
  lemma SoundLater(b: Balance, sec: int, later: int)
    requires Sound(b, sec, 0) && sec <= later
    ensures Sound(b, later, 0)
  {
    MaturityMonotone(sec, later);
  }

  lemma SavingsOut(b: Balance, sec: int, held: int)
    requires Sound(b, sec, held) && Clock(sec)
    ensures Plain(WithoutSavings(b), sec, held + Savings(b)) && Sound(WithoutSavings(b), sec, held + Savings(b))
    ensures 0 <= Savings(b)
  {
  }

  lemma AddBucketSound(b: Balance, time: int, amount: int, sec: int, held: int)
    requires Plain(b, sec, held) && Clock(sec) && 0 <= amount && (time == Maturity(sec) || time == END_OF_DAYS)
    ensures Sound(AddBucket(b, time, amount), sec, held - amount)
    ensures time == Maturity(sec) ==> Plain(AddBucket(b, time, amount), sec, held - amount)
    ensures time == END_OF_DAYS ==> Savings(AddBucket(b, time, amount)) == amount
  {
    hide Plain, Sound;
    var n := |b.buckets|;
    if n > 0 && b.buckets[n - 1].time == time {
      TopUpSound(b, time, amount, sec, held);
    } else {
      AppendSound(b, time, amount, sec, held);
    }
  }

  /** Adding to the last bucket, whose time is already that of the new REX. */
  lemma TopUpSound(b: Balance, time: int, amount: int, sec: int, held: int)
    requires Plain(b, sec, held) && Clock(sec) && 0 <= amount
    requires b.buckets != [] && time == b.buckets[|b.buckets| - 1].time
    ensures Sound(AddBucket(b, time, amount), sec, held - amount) && Plain(AddBucket(b, time, amount), sec, held - amount)
    ensures time != END_OF_DAYS
  {
    hide Maturity;
    var n := |b.buckets|;
    var r := AddBucket(b, time, amount);
    assert r.buckets[..n - 1] == b.buckets[..n - 1];
  }

  /** Adding a bucket of its own, later than all others. */
  lemma AppendSound(b: Balance, time: int, amount: int, sec: int, held: int)
    requires Plain(b, sec, held) && Clock(sec) && 0 <= amount && (time == Maturity(sec) || time == END_OF_DAYS)
    requires b.buckets == [] || b.buckets[|b.buckets| - 1].time != time
    ensures Sound(AddBucket(b, time, amount), sec, held - amount)
    ensures time == Maturity(sec) ==> Plain(AddBucket(b, time, amount), sec, held - amount)
    ensures time == END_OF_DAYS ==> Savings(AddBucket(b, time, amount)) == amount
  {
    hide Maturity, Total;
    var n := |b.buckets|;
    var r := AddBucket(b, time, amount);
    assert r.buckets == b.buckets + [Bucket(time, amount)];
    TotalAppend(b.buckets, Bucket(time, amount));
    assert forall i :: 0 <= i < n ==> b.buckets[i].time < time;
    assert Increasing(r.buckets) && NonNegative(r.buckets);
  }

  lemma TotalAppend(bs: seq<Bucket>, last: Bucket)
    ensures Total(bs + [last]) == Total(bs) + last.amount
  {
    assert (bs + [last])[..|bs|] == bs;
  }

  lemma PutSavingsSound(b: Balance, amount: int, sec: int)
    requires Plain(b, sec, amount) && Clock(sec) && 0 <= amount
    ensures Sound(PutSavings(b, amount), sec, 0) && Savings(PutSavings(b, amount)) == amount
  {
    if amount != 0 {
      AddBucketSound(b, END_OF_DAYS, amount, sec, amount);
    }
  }

  /** Taking the first bucket into the matured part. */
  lemma PopFront(b: Balance, sec: int, held: int)
    requires Sound(b, sec, held) && b.buckets != []
    ensures var r := b.(matured := b.matured + b.buckets[0].amount, buckets := b.buckets[1..]);
      Sound(r, sec, held) && (Plain(b, sec, held) ==> Plain(r, sec, held)) && b.matured <= r.matured
  {
    TotalFront(b.buckets);
  }

  /** Everything due at `sec`. */
  function Due(bs: seq<Bucket>, sec: int): int {
    if bs == [] then 0 else (if bs[0].time <= sec then bs[0].amount else 0) + Due(bs[1..], sec)
  }

  lemma {:induction false} NothingDue(bs: seq<Bucket>, sec: int)
    requires forall i :: 0 <= i < |bs| ==> sec < bs[i].time
    ensures Due(bs, sec) == 0
  {
    if bs == [] {
    } else {
      NothingDue(bs[1..], sec);
    }
  }

  /** Exactly the buckets whose time has come move to the matured part. */
  lemma {:induction false} MatureSound(b: Balance, sec: int, held: int)
    requires Sound(b, sec, held)
    ensures Sound(Mature(b, sec), sec, held) && (Plain(b, sec, held) ==> Plain(Mature(b, sec), sec, held))
    ensures Mature(b, sec) == b.(matured := b.matured + Due(b.buckets, sec), buckets := Mature(b, sec).buckets)
    ensures forall i :: 0 <= i < |Mature(b, sec).buckets| ==> sec < Mature(b, sec).buckets[i].time
    ensures b.matured <= Mature(b, sec).matured
    decreases |b.buckets|
  {
    hide Sound, Plain;
    if b.buckets != [] && b.buckets[0].time <= sec {
      PopFront(b, sec, held);
      MatureSound(b.(matured := b.matured + b.buckets[0].amount, buckets := b.buckets[1..]), sec, held);
    } else {
      AllLater(b, sec, held);
      NothingDue(b.buckets, sec);
    }
  }

  lemma AllLater(b: Balance, sec: int, held: int)
    requires Sound(b, sec, held) && (b.buckets != [] ==> sec < b.buckets[0].time)
    ensures forall i :: 0 <= i < |b.buckets| ==> sec < b.buckets[i].time
  {
    if b.buckets != [] {
      assert forall i :: 0 < i < |b.buckets| ==> b.buckets[0].time < b.buckets[i].time;
    }
  }

  lemma Grown(b: Balance, received: int, sec: int)
    requires Sound(b, sec, 0)
    ensures var grown := b.(rex := b.rex + received); Sound(grown, sec, received) && Savings(grown) == Savings(b)
  {
  }

  // ---- the four operations keep a row sound

  lemma CreditSound(b: Balance, received: int, sec: int)
    requires Sound(b, sec, 0) && Clock(sec) && 0 <= received
    ensures Sound(Credit(b, received, sec), sec, 0)
    ensures Credit(b, received, sec).rex == b.rex + received
    ensures b.matured <= Credit(b, received, sec).matured
    ensures Savings(Credit(b, received, sec)) == Savings(b)
  {
    hide Sound, Plain, Mature, WithoutSavings, AddBucket, PutSavings, Savings, HasSavings, Maturity, Clock;
    var grown := b.(rex := b.rex + received);
    Grown(b, received, sec);
    SavingsOut(grown, sec, received);
    var read := WithoutSavings(grown);
    MatureSound(read, sec, received + Savings(b));
    var plain := Mature(read, sec);
    AddBucketSound(plain, Maturity(sec), received, sec, received + Savings(b));
    PutSavingsSound(AddBucket(plain, Maturity(sec), received), Savings(b), sec);
  }

  /** Selling takes from the matured part alone. */
  lemma DebitSound(b: Balance, sold: int, sec: int)
    requires Sound(b, sec, 0) && sold <= b.matured
    ensures Sound(Debit(b, sold), sec, 0)
  {
  }

  lemma MoveFromSavingsSound(b: Balance, rex: int, sec: int)
    requires Sound(b, sec, 0) && Clock(sec) && 0 < rex
    ensures MoveFromSavings(b, rex, sec).Ok? <==> rex <= Savings(b)
    ensures !MoveFromSavings(b, rex, sec).Broken?
    ensures MoveFromSavings(b, rex, sec).Ok? ==>
      var r := MoveFromSavings(b, rex, sec).value;
      Sound(r, sec, 0) && r.rex == b.rex && b.matured <= r.matured && Savings(r) == Savings(b) - rex
  {
    hide Sound, Plain, Mature, WithoutSavings, AddBucket, PutSavings, Savings, HasSavings, Maturity, Clock;
    if rex <= Savings(b) {
      SavingsOut(b, sec, 0);
      var read := WithoutSavings(b);
      MatureSound(read, sec, Savings(b));
      AddBucketSound(Mature(read, sec), Maturity(sec), rex, sec, Savings(b));
      PutSavingsSound(AddBucket(Mature(read, sec), Maturity(sec), rex), Savings(b) - rex, sec);
    }
  }

  /** The loop of mvtosavings moves what it can, latest maturity first, and keeps the rest in order. */
  lemma {:induction false} TakeFromBackSound(b: Balance, moved: int, rex: int, sec: int, held: int)
    requires Plain(b, sec, held) && moved <= rex
    ensures var (rest, taken) := TakeFromBack(b.buckets, moved, rex);
      && Plain(b.(buckets := rest), sec, held + taken - moved)
      && moved <= taken <= rex && (taken < rex ==> rest == [])
    decreases |b.buckets|, rex - moved
  {
    hide Plain;
    var bs := b.buckets;
    if bs != [] && moved < rex {
      var n := |bs|;
      var back := bs[n - 1];
      PopBack(b, sec, held);
      if back.amount <= rex - moved {
        TakeFromBackSound(b.(buckets := bs[..n - 1]), moved + back.amount, rex, sec, held + back.amount);
      } else {
        var drex := rex - moved;
        ShrinkBack(b, drex, sec, held);
        TakeFromBackSound(b.(buckets := bs[n - 1 := Bucket(back.time, back.amount - drex)]), rex, rex, sec, held + drex);
      }
    }
  }

  lemma PopBack(b: Balance, sec: int, held: int)
    requires Plain(b, sec, held) && b.buckets != []
    ensures var n := |b.buckets|;
      Plain(b.(buckets := b.buckets[..n - 1]), sec, held + b.buckets[n - 1].amount) && 0 <= b.buckets[n - 1].amount
  {
  }

  lemma ShrinkBack(b: Balance, drex: int, sec: int, held: int)
    requires Plain(b, sec, held) && b.buckets != [] && 0 <= drex <= b.buckets[|b.buckets| - 1].amount
    ensures var n := |b.buckets|;
      var less := b.buckets[n - 1 := Bucket(b.buckets[n - 1].time, b.buckets[n - 1].amount - drex)];
      Plain(b.(buckets := less), sec, held + drex)
  {
    var n := |b.buckets|;
    var less := b.buckets[n - 1 := Bucket(b.buckets[n - 1].time, b.buckets[n - 1].amount - drex)];
    assert less[..n - 1] == b.buckets[..n - 1];
  }

  /**
   * mvtosavings moves exactly what was asked into savings whenever the REX outside savings and sell order covers
   * it, leaves at least the sell order matured, and touches the matured part only once every bucket is used up.
   * Neither of its internal error checks can fire.
   */
  lemma MoveToSavingsSound(b: Balance, rex: int, inOrder: int, sec: int)
    requires Sound(b, sec, 0) && Clock(sec) && 0 < rex && 0 <= inOrder <= b.matured
    ensures MoveToSavings(b, rex, inOrder, sec).Ok? <==> rex + inOrder + Savings(b) <= b.rex
    ensures !MoveToSavings(b, rex, inOrder, sec).Broken?
    ensures MoveToSavings(b, rex, inOrder, sec).Ok? ==>
      var r := MoveToSavings(b, rex, inOrder, sec).value;
      && Sound(r, sec, 0) && r.rex == b.rex && inOrder <= r.matured && Savings(r) == Savings(b) + rex
      && (r.matured < Mature(WithoutSavings(b), sec).matured ==> r.buckets == [Bucket(END_OF_DAYS, Savings(r))])
  {
    hide Sound, Plain, Mature, WithoutSavings, TakeFromBack, Savings, HasSavings, Maturity, Clock;
    if rex + inOrder + Savings(b) <= b.rex {
      var savings := Savings(b);
      SavingsOut(b, sec, 0);
      var read := WithoutSavings(b);
      MatureSound(read, sec, savings);
      var plain := Mature(read, sec);
      TakeFromBackSound(plain, 0, rex, sec, savings);
      var (rest, moved) := TakeFromBack(plain.buckets, 0, rex);
      var left := plain.(buckets := rest);
      if moved < rex {
        UseMatured(left, rex - moved, sec, savings + moved);
        PutSavingsSound(left.(matured := plain.matured - (rex - moved)), savings + rex, sec);
      } else {
        PutSavingsSound(left, savings + rex, sec);
      }
    }
  }

  /** With no bucket left the rest comes out of the matured part. */
  lemma UseMatured(b: Balance, amount: int, sec: int, held: int)
    requires Plain(b, sec, held) && b.buckets == [] && 0 <= amount
    ensures b.rex == b.matured + held
    ensures amount <= b.matured ==> Plain(b.(matured := b.matured - amount), sec, held + amount)
  {
  }

  /** consolidate keeps the REX in the sell order matured and the savings where they are. */
  lemma ConsolidateSound(b: Balance, inOrder: int, sec: int)
    requires Sound(b, sec, 0) && Clock(sec) && 0 <= inOrder <= b.matured
    ensures Sound(Consolidate(b, inOrder, sec), sec, 0)
    ensures Consolidate(b, inOrder, sec).rex == b.rex
    ensures Consolidate(b, inOrder, sec).matured == inOrder
    ensures Savings(Consolidate(b, inOrder, sec)) == Savings(b)
  {
    hide Plain, WithoutSavings, AddBucket, PutSavings, Savings, HasSavings, Maturity, Clock;
    SavingsOut(b, sec, 0);
    var plain := WithoutSavings(b);
    TotalNonNegative(plain.buckets);
    var total := plain.matured - inOrder + Total(plain.buckets);
    var emptied := plain.(matured := inOrder, buckets := []);
    Emptied(plain, inOrder, sec, Savings(b));
    if total > 0 {
      AddBucketSound(emptied, Maturity(sec), total, sec, Savings(b) + total);
      PutSavingsSound(AddBucket(emptied, Maturity(sec), total), Savings(b), sec);
    } else {
      PutSavingsSound(emptied, Savings(b), sec);
    }
  }

  lemma Emptied(b: Balance, inOrder: int, sec: int, held: int)
    requires Plain(b, sec, held) && 0 <= inOrder
    ensures Plain(b.(matured := inOrder, buckets := []), sec, held + b.matured - inOrder + Total(b.buckets))
  {
  }

  // ---- what an owner can sell, and when

  /** The REX that has matured by time `at`, a time before that of the savings bucket. */
  function SellableAt(b: Balance, at: int): int {
    b.matured + Due(b.buckets, at)
  }

  /**
   * `amount` REX has been filed for a midnight more than four and at most five days ahead: from then on it can be sold,
   * and nothing else changes about what can be sold when.
   */
  ghost predicate FiledAhead(b: Balance, r: Balance, amount: int, sec: int) {
    exists m: int :: FiledFor(b, r, amount, sec, m)
  }

  ghost predicate FiledFor(b: Balance, r: Balance, amount: int, sec: int, m: int) {
    && sec + 345600 < m <= sec + 432000 && m % 86400 == 0
    && forall at :: sec <= at < 4294967295 ==> SellableAt(r, at) == SellableAt(b, at) + if m <= at then amount else 0
  }

  lemma {:induction false} DueAppend(bs: seq<Bucket>, b: Bucket, at: int)
    ensures Due(bs + [b], at) == Due(bs, at) + if b.time <= at then b.amount else 0
  {
    if bs == [] {
    } else {
      assert (bs + [b])[1..] == bs[1..] + [b];
      DueAppend(bs[1..], b, at);
    }
  }

  lemma DueSplit(bs: seq<Bucket>, at: int)
    requires bs != []
    ensures var n := |bs|; Due(bs, at) == Due(bs[..n - 1], at) + if bs[n - 1].time <= at then bs[n - 1].amount else 0
  {
    var n := |bs|;
    assert bs == bs[..n - 1] + [bs[n - 1]];
    DueAppend(bs[..n - 1], bs[n - 1], at);
  }

  /** A bucket's REX can be sold from its time on. */
  lemma AddBucketSellable(b: Balance, time: int, amount: int, at: int)
    ensures SellableAt(AddBucket(b, time, amount), at) == SellableAt(b, at) + if time <= at then amount else 0
  {
    var n := |b.buckets|;
    if n > 0 && b.buckets[n - 1].time == time {
      var r := b.buckets[n - 1 := Bucket(time, b.buckets[n - 1].amount + amount)];
      DueSplit(b.buckets, at);
      DueSplit(r, at);
      assert r[..n - 1] == b.buckets[..n - 1];
    } else {
      DueAppend(b.buckets, Bucket(time, amount), at);
    }
  }

  lemma SavingsNotSellable(b: Balance, at: int)
    requires at < 4294967295
    ensures SellableAt(WithoutSavings(b), at) == SellableAt(b, at)
  {
    if HasSavings(b) {
      DueSplit(b.buckets, at);
    }
  }

  lemma PutSavingsSellable(b: Balance, amount: int, at: int)
    requires at < 4294967295
    ensures SellableAt(PutSavings(b, amount), at) == SellableAt(b, at)
  {
    if amount != 0 {
      AddBucketSellable(b, END_OF_DAYS, amount, at);
    }
  }

  /** Maturing makes nothing sellable that was not. */
  lemma {:induction false} MatureSellable(b: Balance, sec: int, at: int)
    requires sec <= at
    ensures SellableAt(Mature(b, sec), at) == SellableAt(b, at)
    decreases |b.buckets|
  {
    if b.buckets == [] || b.buckets[0].time > sec {
    } else {
      MatureSellable(b.(matured := b.matured + b.buckets[0].amount, buckets := b.buckets[1..]), sec, at);
    }
  }

  lemma MaturityIs(sec: int)
    ensures sec + 345600 < Maturity(sec) <= sec + 432000 && Maturity(sec) % 86400 == 0
  {
  }

  /** Reading the savings out, maturing, filing and putting savings back. */
  lemma RefiledSellable(b: Balance, amount: int, savings: int, sec: int)
    ensures FiledAhead(b, PutSavings(AddBucket(Mature(WithoutSavings(b), sec), Maturity(sec), amount), savings), amount, sec)
  {
    hide Mature, WithoutSavings, AddBucket, PutSavings, SellableAt;
    var m := Maturity(sec);
    MaturityIs(sec);
    var plain := Mature(WithoutSavings(b), sec);
    var r := PutSavings(AddBucket(plain, m, amount), savings);
    forall at | sec <= at < 4294967295
      ensures SellableAt(r, at) == SellableAt(b, at) + if m <= at then amount else 0
    {
      SavingsNotSellable(b, at);
      MatureSellable(WithoutSavings(b), sec, at);
      AddBucketSellable(plain, m, amount, at);
      PutSavingsSellable(AddBucket(plain, m, amount), savings, at);
    }
    assert FiledFor(b, r, amount, sec, m);
  }

  /** After the buckets that are due have been taken in, the matured part is what can be sold now. */
  lemma MaturedNow(b: Balance, sec: int)
    requires Sound(b, sec, 0) && Clock(sec)
    ensures Mature(WithoutSavings(b), sec).matured == SellableAt(b, sec)
  {
    hide Sound, Plain, Mature, WithoutSavings;
    SavingsOut(b, sec, 0);
    MatureSound(WithoutSavings(b), sec, Savings(b));
    SavingsNotSellable(b, sec);
  }

  /** REX just bought is filed ahead. */
  lemma CreditFiled(b: Balance, received: int, sec: int)
    ensures Credit(b, received, sec).rex == b.rex + received
    ensures FiledAhead(b, Credit(b, received, sec), received, sec)
  {
    hide Mature, WithoutSavings, AddBucket, PutSavings, Savings, HasSavings, Maturity;
    RefiledSellable(b.(rex := b.rex + received), received, Savings(b), sec);
    GrownSellable(b, received, Credit(b, received, sec), sec);
  }

  /** REX just bought is filed ahead, and the matured part is what could be sold before the purchase. */
  lemma CreditMatures(b: Balance, received: int, sec: int)
    requires Sound(b, sec, 0) && Clock(sec) && 0 <= received
    ensures FiledAhead(b, Credit(b, received, sec), received, sec)
    ensures Credit(b, received, sec).matured == SellableAt(b, sec)
  {
    hide Sound, Mature, WithoutSavings, AddBucket, PutSavings, Savings, HasSavings, Maturity, Clock;
    CreditFiled(b, received, sec);
    GrownMatured(b, received, sec);
    MaturedNow(b, sec);
  }

  lemma GrownSellable(b: Balance, received: int, r: Balance, sec: int)
    requires FiledAhead(b.(rex := b.rex + received), r, received, sec)
    ensures FiledAhead(b, r, received, sec)
  {
    var m :| FiledFor(b.(rex := b.rex + received), r, received, sec, m);
    assert forall at :: SellableAt(b.(rex := b.rex + received), at) == SellableAt(b, at);
    assert FiledFor(b, r, received, sec, m);
  }

  lemma GrownMatured(b: Balance, received: int, sec: int)
    ensures Mature(WithoutSavings(b.(rex := b.rex + received)), sec).matured == Mature(WithoutSavings(b), sec).matured
  {
    MaturedAlone(WithoutSavings(b), b.rex + received, sec);
  }

  lemma {:induction false} MaturedAlone(b: Balance, rex: int, sec: int)
    ensures Mature(b.(rex := rex), sec) == Mature(b, sec).(rex := rex)
    decreases |b.buckets|
  {
    if b.buckets == [] || b.buckets[0].time > sec {
    } else {
      MaturedAlone(b.(matured := b.matured + b.buckets[0].amount, buckets := b.buckets[1..]), rex, sec);
    }
  }

  /** REX moved out of savings is filed ahead like REX just bought. */
  lemma MoveFromSavingsMatures(b: Balance, rex: int, sec: int)
    requires Sound(b, sec, 0) && Clock(sec) && 0 < rex <= Savings(b)
    ensures FiledAhead(b, MoveFromSavings(b, rex, sec).value, rex, sec)
    ensures MoveFromSavings(b, rex, sec).value.matured == SellableAt(b, sec)
  {
    hide Sound, Mature, WithoutSavings, AddBucket, PutSavings, Savings, HasSavings, Maturity, Clock;
    RefiledSellable(b, rex, Savings(b) - rex, sec);
    MaturedNow(b, sec);
  }

  /** consolidate leaves only the sell order sellable until everything else matures ahead, all at once. */
  lemma ConsolidateMatures(b: Balance, inOrder: int, sec: int)
    requires Sound(b, sec, 0) && Clock(sec) && 0 <= inOrder <= b.matured
    ensures FiledAhead(Balance(0, inOrder, []), Consolidate(b, inOrder, sec), b.rex - inOrder - Savings(b), sec)
  {
    hide Mature, AddBucket, PutSavings, Maturity, Clock, WithoutSavings, Savings, HasSavings;
    var plain := WithoutSavings(b);
    SavingsOut(b, sec, 0);
    var total := plain.matured - inOrder + Total(plain.buckets);
    assert total == b.rex - inOrder - Savings(b);
    TotalNonNegative(plain.buckets);
    var emptied := plain.(matured := inOrder, buckets := []);
    var m := Maturity(sec);
    MaturityIs(sec);
    var r := Consolidate(b, inOrder, sec);
    forall at | sec <= at < 4294967295
      ensures SellableAt(r, at) == inOrder + if m <= at then total else 0
    {
      AddBucketSellable(emptied, m, total, at);
      PutSavingsSellable(if total > 0 then AddBucket(emptied, m, total) else emptied, Savings(b), at);
    }
    assert FiledFor(Balance(0, inOrder, []), r, total, sec, m);
  }

  function Min(a: int, b: int): int {
    if a <= b then a else b
  }

  /** mvtosavings takes what could be sold last: what remains sellable at any time is what was, up to what remains at all. */
  lemma MoveToSavingsMatures(b: Balance, rex: int, inOrder: int, sec: int, at: int)
    requires Sound(b, sec, 0) && Clock(sec) && 0 < rex && 0 <= inOrder <= b.matured && rex + inOrder + Savings(b) <= b.rex
    requires sec <= at < 4294967295
    ensures MoveToSavings(b, rex, inOrder, sec).Ok?
    ensures SellableAt(MoveToSavings(b, rex, inOrder, sec).value, at) == Min(SellableAt(b, at), b.rex - Savings(b) - rex)
  {
    hide Sound, Plain, Mature, WithoutSavings, TakeFromBack, Savings, HasSavings, PutSavings, Maturity, Clock, SellableAt;
    MoveToSavingsSound(b, rex, inOrder, sec);
    var savings := Savings(b);
    SavingsOut(b, sec, 0);
    var read := WithoutSavings(b);
    MatureSound(read, sec, savings);
    var plain := Mature(read, sec);
    SavingsNotSellable(b, at);
    MatureSellable(read, sec, at);
    TakeFromBackSound(plain, 0, rex, sec, savings);
    var (rest, moved) := TakeFromBack(plain.buckets, 0, rex);
    TakenSellable(plain, rex, sec, savings, at);
    var matured := if moved < rex then plain.matured - (rex - moved) else plain.matured;
    PutSavingsSellable(plain.(matured := matured, buckets := rest), savings + rex, at);
  }

  /** Taking from the back, and then from the matured part, caps what can be sold at any time. */
  lemma TakenSellable(b: Balance, rex: int, sec: int, held: int, at: int)
    requires Plain(b, sec, held) && 0 <= rex <= b.rex - held
    ensures var (rest, moved) := TakeFromBack(b.buckets, 0, rex);
      var matured := if moved < rex then b.matured - (rex - moved) else b.matured;
      SellableAt(b.(matured := matured, buckets := rest), at) == Min(SellableAt(b, at), b.rex - held - rex)
  {
    hide TakeFromBack;
    TakeFromBackDue(b, 0, rex, sec, held, at);
    TakeFromBackSound(b, 0, rex, sec, held);
    DueWithin(b, sec, held, at);
  }

  lemma {:induction false} DueBounds(bs: seq<Bucket>, at: int)
    requires NonNegative(bs)
    ensures 0 <= Due(bs, at)
  {
    if bs == [] {
    } else {
      DueBounds(bs[1..], at);
    }
  }

  lemma {:induction false} DueAtMost(bs: seq<Bucket>, at: int)
    requires NonNegative(bs)
    ensures Due(bs, at) <= Total(bs)
  {
    if bs == [] {
    } else {
      DueAtMost(bs[1..], at);
      TotalFront(bs);
    }
  }

  /** What can be sold at any time is at most all there is outside savings. */
  lemma DueWithin(b: Balance, sec: int, held: int, at: int)
    requires Sound(b, sec, held)
    ensures 0 <= b.matured <= SellableAt(b, at) <= b.rex - held
  {
    DueBounds(b.buckets, at);
    DueAtMost(b.buckets, at);
  }

  /** The loop caps what is due at any time by what it leaves. */
  lemma {:induction false} TakeFromBackDue(b: Balance, moved: int, rex: int, sec: int, held: int, at: int)
    requires Plain(b, sec, held) && moved <= rex
    ensures var (rest, taken) := TakeFromBack(b.buckets, moved, rex);
      Due(rest, at) == Min(Due(b.buckets, at), Total(b.buckets) - (taken - moved))
    decreases |b.buckets|, rex - moved
  {
    hide Plain, NonNegative, Due;
    var bs := b.buckets;
    PlainNonNegative(b, sec, held);
    DueAtMost(bs, at);
    if bs == [] || moved >= rex {
    } else {
      var n := |bs|;
      var back := bs[n - 1];
      PopBack(b, sec, held);
      DueSplit(bs, at);
      LastAlone(b, sec, held, at);
      if back.amount <= rex - moved {
        var fewer := b.(buckets := bs[..n - 1]);
        TakeFromBackDue(fewer, moved + back.amount, rex, sec, held + back.amount, at);
        TakeFromBackSound(fewer, moved + back.amount, rex, sec, held + back.amount);
        TakesAll(bs, moved, rex);
      } else {
        var drex := rex - moved;
        var less := bs[n - 1 := Bucket(back.time, back.amount - drex)];
        DueSplit(less, at);
        assert less[..n - 1] == bs[..n - 1];
        TakesSome(bs, moved, rex);
      }
    }
  }

  lemma TakesAll(bs: seq<Bucket>, moved: int, rex: int)
    requires bs != [] && moved < rex && bs[|bs| - 1].amount <= rex - moved
    ensures TakeFromBack(bs, moved, rex) == TakeFromBack(bs[..|bs| - 1], moved + bs[|bs| - 1].amount, rex)
  {
  }

  lemma TakesSome(bs: seq<Bucket>, moved: int, rex: int)
    requires bs != [] && moved < rex && rex - moved < bs[|bs| - 1].amount
    ensures var n := |bs|;
      TakeFromBack(bs, moved, rex) == (bs[n - 1 := Bucket(bs[n - 1].time, bs[n - 1].amount - (rex - moved))], rex)
  {
  }

  lemma PlainNonNegative(b: Balance, sec: int, held: int)
    requires Plain(b, sec, held)
    ensures NonNegative(b.buckets)
  {
  }

  /** Once the last bucket is due so are all before it. */
  lemma LastAlone(b: Balance, sec: int, held: int, at: int)
    requires Plain(b, sec, held) && b.buckets != []
    ensures var n := |b.buckets|; b.buckets[n - 1].time <= at ==> Due(b.buckets[..n - 1], at) == Total(b.buckets[..n - 1])
    ensures var n := |b.buckets|; Due(b.buckets[..n - 1], at) <= Total(b.buckets[..n - 1])
  {
    var n := |b.buckets|;
    if b.buckets[n - 1].time <= at {
      AllDue(b.buckets[..n - 1], at);
    }
    DueAtMost(b.buckets[..n - 1], at);
  }

  lemma {:induction false} AllDue(bs: seq<Bucket>, at: int)
    requires forall i :: 0 <= i < |bs| ==> bs[i].time <= at
    ensures Due(bs, at) == Total(bs)
  {
    if bs == [] {
    } else {
      AllDue(bs[1..], at);
      TotalFront(bs);
    }
  }
}
