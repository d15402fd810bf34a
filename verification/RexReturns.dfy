/**
 * The REX return pool: fees collected over twelve hours form a bucket that is paid out over the next 30 days, one part
 * per ten-minute interval, settled lazily whenever the pool is touched.
 */
module RexReturns {
  import opened Products

  // A distribution interval is 600 seconds, a bucket pays over 4320 of them (30 days) and collects over 43200 seconds.
  const END_OF_DAYS := 4294967295     // time_point_sec::maximum()

  datatype Bucket = Bucket(time: int, rate: int)

  /**
   * The rexretpool row, the retbuckets row (a std::map by time, kept as a sorted sequence), and the unlent tokens of
   * the REX pool the returns are added to.
   */
  datatype Returns = Returns(
    started: bool,
    lastDist: int,
    pendingTime: int,
    oldest: int,
    pending: int,
    rate: int,
    proceeds: int,
    buckets: seq<Bucket>,
    unlent: int
  )

  // ---- the definition of what is paid when

  /** Whole distribution intervals between two times. */
  function Intervals(from: int, to: int): int {
    (to - from) / 600
  }

  function Rates(bs: seq<Bucket>): int {
    if bs == [] then 0 else bs[0].rate + Rates(bs[1..])
  }

  /** What the buckets have still to pay at time `at`: each pays its rate 4320 times, counting from its own time. */
  function Remaining(bs: seq<Bucket>, at: int): int {
    if bs == [] then 0 else bs[0].rate * (4320 - Intervals(bs[0].time, at)) + Remaining(bs[1..], at)
  }

  /** The buckets whose 30 days are not over. */
  function Live(bs: seq<Bucket>, at: int): seq<Bucket> {
    if bs != [] && bs[0].time + 2592000 <= at then Live(bs[1..], at) else bs
  }

  function Oldest(bs: seq<Bucket>): int {
    if bs == [] then 0 else bs[0].time
  }

  /** The buckets at time `at`, with the pending one among them once its time has come. */
  function Opened(s: Returns, at: int): seq<Bucket> {
    if s.pendingTime <= at then s.buckets + [Bucket(s.pendingTime, s.pending / 4320)] else s.buckets
  }

  function StillPending(s: Returns, at: int): int {
    if s.pendingTime <= at then 0 else s.pending
  }

  /** The pool settled at time `at`: the live buckets and the pending fees say all, and the rest has been paid. */
  function Settled(s: Returns, at: int): Returns {
    var live := Live(Opened(s, at), at);
    var proceeds := StillPending(s, at) + Remaining(live, at);
    s.(lastDist := at, pendingTime := if s.pendingTime <= at then END_OF_DAYS else s.pendingTime,
       oldest := Oldest(live), pending := StillPending(s, at), rate := Rates(live), proceeds := proceeds, buckets := live,
       unlent := s.unlent + s.proceeds - proceeds)
  }

  function Effective(now: int): int {
    now - now % 600
  }

  /** update_rex_pool. */
  function Updated(s: Returns, now: int): Returns {
    if !s.started || Effective(now) <= s.lastDist then s else Settled(s, Effective(now))
  }

  /** The end of the current twelve hours. */
  function BucketEnd(now: int): int {
    now - now % 43200 + 43200
  }

  /** add_to_rex_return_pool. */
  function FeeAdded(s: Returns, now: int, fee: int): Returns {
    var u := Updated(s, now);
    if fee <= 0 then u
    else if !u.started then
      Returns(true, BucketEnd(now), BucketEnd(now), 0, fee, 0, fee, [], u.unlent)
    else
      u.(pending := u.pending + fee, proceeds := u.proceeds + fee,
         pendingTime := if u.pendingTime == END_OF_DAYS then BucketEnd(now) else u.pendingTime)
  }

  // ---- what every pool satisfies

  predicate Sorted(bs: seq<Bucket>) {
    forall i, j :: 0 <= i < j < |bs| ==> bs[i].time < bs[j].time
  }

  predicate OnGrid(bs: seq<Bucket>) {
    forall i :: 0 <= i < |bs| ==> 0 < bs[i].time && bs[i].time % 600 == 0 && 0 <= bs[i].rate
  }

  /** Every bucket has been opened by `at`, and none is over. */
  predicate Running(bs: seq<Bucket>, at: int) {
    forall i :: 0 <= i < |bs| ==> bs[i].time <= at < bs[i].time + 2592000
  }

  /** The cached rate and proceeds agree with the buckets. */
  predicate Sound(s: Returns, now: int) {
    if !s.started then s == Returns(false, 0, END_OF_DAYS, 0, 0, 0, 0, [], s.unlent)
    else
      && Sorted(s.buckets) && OnGrid(s.buckets) && Running(s.buckets, s.lastDist)
      && s.lastDist % 600 == 0 && 0 < s.lastDist
      && s.rate == Rates(s.buckets)
      && s.proceeds == s.pending + Remaining(s.buckets, s.lastDist)
      && (s.oldest == 0 || s.oldest == Oldest(s.buckets))
      && 0 <= s.pending
      && (if s.pendingTime == END_OF_DAYS then s.pending == 0 && s.lastDist <= now
          else s.pendingTime % 600 == 0 && s.lastDist <= s.pendingTime && 0 < s.pendingTime
               && (forall i :: 0 <= i < |s.buckets| ==> s.buckets[i].time < s.pendingTime))
  }

  /** The clock is at least 30 days past the epoch and a day clear of the end of its 32 bits. */
  predicate Clock(now: int) {
    2592000 <= now && now + 86400 < END_OF_DAYS
  }

  // ---- facts about buckets

  lemma IntervalsAdd(a: int, b: int, c: int)
    requires a % 600 == 0 && b % 600 == 0 && c % 600 == 0
    ensures Intervals(a, c) == Intervals(a, b) + Intervals(b, c)
  {
  }

  /** Between two settlements every running bucket pays its rate once per interval. */
  lemma {:induction false} RemainingDecays(bs: seq<Bucket>, a: int, b: int)
    requires OnGrid(bs) && a % 600 == 0 && b % 600 == 0
    ensures Remaining(bs, a) == Remaining(bs, b) + Rates(bs) * Intervals(a, b)
  {
    hide Intervals;
    if bs == [] {
    } else {
      var t, r := bs[0].time, bs[0].rate;
      RemainingDecays(bs[1..], a, b);
      IntervalsAdd(t, a, b);
      OneDecays(r, Rates(bs[1..]), Intervals(t, a), Intervals(a, b));
    }
  }

  lemma OneDecays(r: int, rest: int, x: int, y: int)
    ensures r * (4320 - x) == r * (4320 - (x + y)) + r * y && (r + rest) * y == r * y + rest * y
  {
  }

  lemma {:induction false} RatesSnoc(bs: seq<Bucket>, b: Bucket, at: int)
    ensures Rates(bs + [b]) == Rates(bs) + b.rate
    ensures Remaining(bs + [b], at) == Remaining(bs, at) + b.rate * (4320 - Intervals(b.time, at))
  {
    if bs == [] {
      assert bs + [b] == [b];
    } else {
      assert (bs + [b])[1..] == bs[1..] + [b];
      RatesSnoc(bs[1..], b, at);
    }
  }

  /** A bucket that is not over has something left or nothing to pay at all. */
  lemma {:induction false} RemainingNonNegative(bs: seq<Bucket>, at: int)
    requires OnGrid(bs) && Running(bs, at)
    ensures 0 <= Remaining(bs, at)
  {
    if bs == [] {
    } else {
      RemainingNonNegative(bs[1..], at);
      MulNonNeg(bs[0].rate, 4320 - Intervals(bs[0].time, at));
    }
  }

  /** What is live is a part of the buckets in order, all of it running. */
  lemma {:induction false} LiveRunning(bs: seq<Bucket>, at: int)
    requires Sorted(bs) && OnGrid(bs) && (forall i :: 0 <= i < |bs| ==> bs[i].time <= at)
    ensures Sorted(Live(bs, at)) && OnGrid(Live(bs, at)) && Running(Live(bs, at), at)
    ensures forall b :: b in Live(bs, at) ==> b in bs
  {
    if bs == [] || bs[0].time + 2592000 > at {
    } else {
      LiveRunning(bs[1..], at);
    }
  }

  /** Settling later drops what settling earlier would have dropped. */
  lemma {:induction false} LiveTwice(bs: seq<Bucket>, a: int, b: int)
    requires a <= b
    ensures Live(Live(bs, a), b) == Live(bs, b)
  {
    if bs == [] || bs[0].time + 2592000 > a {
    } else {
      LiveTwice(bs[1..], a, b);
    }
  }

  /** A bucket that has not run out yet stays in place when another is appended. */
  lemma {:induction false} LiveSnoc(bs: seq<Bucket>, b: Bucket, a: int, at: int)
    requires a <= at && a < b.time + 2592000
    ensures Live(Live(bs, a) + [b], at) == Live(bs + [b], at)
  {
    if bs == [] {
    } else if bs[0].time + 2592000 <= a {
      LiveSnoc(bs[1..], b, a, at);
      assert (bs + [b])[1..] == bs[1..] + [b];
    }
  }

  // ---- settling

  lemma OpenedSound(s: Returns, now: int, at: int)
    requires Sound(s, now) && s.started && s.lastDist < at && at % 600 == 0 && Clock(at)
    ensures var bs := Opened(s, at);
      Sorted(bs) && OnGrid(bs) && (forall i :: 0 <= i < |bs| ==> bs[i].time <= at)
  {
    hide Rates, Remaining, Oldest;
    if s.pendingTime <= at {
      AppendSorted(s.buckets, Bucket(s.pendingTime, s.pending / 4320), at);
    }
  }

  lemma AppendSorted(bs: seq<Bucket>, b: Bucket, at: int)
    requires Sorted(bs) && OnGrid(bs) && (forall i :: 0 <= i < |bs| ==> bs[i].time < b.time)
    requires 0 < b.time <= at && b.time % 600 == 0 && 0 <= b.rate
    ensures Sorted(bs + [b]) && OnGrid(bs + [b]) && (forall i :: 0 <= i <= |bs| ==> (bs + [b])[i].time <= at)
  {
  }

  /** What the buckets can still pay from time `from` on, counting in full those that open later. */
  function Capacity(bs: seq<Bucket>, from: int): int {
    if bs == [] then 0
    else bs[0].rate * (4320 - (if bs[0].time <= from then Intervals(bs[0].time, from) else 0)) + Capacity(bs[1..], from)
  }

  predicate NotOver(bs: seq<Bucket>, from: int, at: int) {
    forall i :: 0 <= i < |bs| ==> from < bs[i].time + 2592000 && bs[i].time <= at
  }

  lemma {:induction false} CapacityRunning(bs: seq<Bucket>, b: Bucket, from: int)
    requires Running(bs, from) && from <= b.time
    ensures Capacity(bs, from) == Remaining(bs, from)
    ensures Capacity(bs + [b], from) == Remaining(bs, from) + b.rate * 4320
  {
    if bs == [] {
      assert bs + [b] == [b];
    } else {
      CapacityRunning(bs[1..], b, from);
      assert (bs + [b])[1..] == bs[1..] + [b];
    }
  }

  /** The share of one bucket only shrinks. */
  lemma ShareShrinks(b: Bucket, from: int, at: int)
    requires 0 <= b.rate && from <= at && from < b.time + 2592000 && b.time <= at && b.time % 600 == 0
    ensures var full := b.rate * (4320 - (if b.time <= from then Intervals(b.time, from) else 0));
      0 <= full && b.rate * (4320 - Intervals(b.time, at)) <= full
  {
    var x := 4320 - (if b.time <= from then Intervals(b.time, from) else 0);
    MulNonNeg(b.rate, x);
    MulLe2(b.rate, 4320 - Intervals(b.time, at), b.rate, x);
  }

  lemma {:induction false} RemainingWithin(bs: seq<Bucket>, from: int, at: int)
    requires OnGrid(bs) && NotOver(bs, from, at) && from <= at
    ensures Remaining(bs, at) <= Capacity(bs, from) && 0 <= Capacity(bs, from)
  {
    hide Intervals;
    if bs == [] {
    } else {
      RemainingWithin(bs[1..], from, at);
      ShareShrinks(bs[0], from, at);
    }
  }

  lemma {:induction false} LiveWithin(bs: seq<Bucket>, from: int, at: int)
    requires OnGrid(bs) && NotOver(bs, from, at) && from <= at
    ensures Remaining(Live(bs, at), at) <= Capacity(bs, from)
  {
    hide Intervals;
    if bs != [] && bs[0].time + 2592000 <= at {
      LiveWithin(bs[1..], from, at);
      ShareShrinks(bs[0], from, at);
    } else {
      RemainingWithin(bs, from, at);
    }
  }

  /**
   * What a settlement pays is never negative, and neither are the proceeds it leaves: the branch of update_rex_pool
   * that corrects negative proceeds is never taken.
   */
  lemma SettlementNonNegative(s: Returns, now: int, at: int)
    requires Sound(s, now) && s.started && s.lastDist < at && at % 600 == 0 && Clock(at)
    ensures 0 <= Settled(s, at).proceeds <= s.proceeds
  {
    hide Live, Capacity, Remaining, Rates, Sorted;
    var bs := Opened(s, at);
    OpenedSound(s, now, at);
    LiveRunning(bs, at);
    RemainingNonNegative(Live(bs, at), at);
    CapacityRunning(s.buckets, Bucket(s.pendingTime, s.pending / 4320), s.lastDist);
    LiveWithin(bs, s.lastDist, at);
  }

  /** A settled pool is sound. */
  lemma SettledSound(s: Returns, now: int, at: int)
    requires Sound(s, now) && s.started && s.lastDist < at && at % 600 == 0 && Clock(at)
    ensures Sound(Settled(s, at), at)
  {
    hide Live, Remaining, Rates;
    var bs := Opened(s, at);
    OpenedSound(s, now, at);
    LiveRunning(bs, at);
  }

  lemma SoundLater(s: Returns, now: int, later: int)
    requires Sound(s, now) && now <= later
    ensures Sound(s, later)
  {
    hide Remaining, Rates;
  }

  /** Settling at a and then at b is settling at b: nothing depends on how often the pool is touched. */
  lemma SettledTwice(s: Returns, now: int, a: int, b: int)
    requires Sound(s, now) && s.started && s.lastDist < a < b && a % 600 == 0 && b % 600 == 0 && Clock(a) && Clock(b)
    ensures Settled(Settled(s, a), b) == Settled(s, b)
  {
    hide Live, Remaining, Rates;
    var nb := Bucket(s.pendingTime, s.pending / 4320);
    if s.pendingTime <= a {
      LiveTwice(Opened(s, a), a, b);
    } else if s.pendingTime <= b {
      LiveSnoc(s.buckets, nb, a, b);
    } else {
      LiveTwice(s.buckets, a, b);
    }
  }

  /** The same for update_rex_pool itself. */
  lemma UpdatedTwice(s: Returns, now: int, a: int, b: int)
    requires Sound(s, now) && now <= a <= b && Clock(a) && Clock(b)
    ensures Updated(Updated(s, a), b) == Updated(s, b)
  {
    hide Settled, Sound;
    EffectiveMonotone(a, b);
    if s.started && s.lastDist < Effective(a) {
      SettledKeeps(s, Effective(a));
      if Effective(a) < Effective(b) {
        SettledTwice(s, now, Effective(a), Effective(b));
      }
    }
  }

  lemma SettledKeeps(s: Returns, at: int)
    ensures Settled(s, at).lastDist == at && Settled(s, at).started == s.started
  {
  }

  lemma EffectiveMonotone(a: int, b: int)
    requires a <= b && Clock(a) && Clock(b)
    ensures Effective(a) <= Effective(b) <= b && Effective(a) % 600 == 0 && Effective(b) % 600 == 0
    ensures Clock(Effective(a)) && Clock(Effective(b))
  {
  }

  // ---- runs

  /** Somebody touches the pool at `now`, adding a fee or, when it is not positive, only settling. */
  datatype Touch = Touch(now: int, fee: int)

  predicate InOrder(touches: seq<Touch>, from: int) {
    touches == [] || (from <= touches[0].now && Clock(touches[0].now) && InOrder(touches[1..], touches[0].now))
  }

  function Run(s: Returns, touches: seq<Touch>): Returns
    decreases |touches|
  {
    if touches == [] then s else Run(FeeAdded(s, touches[0].now, touches[0].fee), touches[1..])
  }

  function Last(touches: seq<Touch>, from: int): int {
    if touches == [] then from else Last(touches[1..], touches[0].now)
  }

  function Fees(touches: seq<Touch>): int {
    if touches == [] then 0 else (if touches[0].fee > 0 then touches[0].fee else 0) + Fees(touches[1..])
  }

  lemma UpdatedSound(s: Returns, now: int, later: int)
    requires Sound(s, now) && now <= later && Clock(later)
    ensures Sound(Updated(s, later), later)
    ensures Updated(s, later).unlent + Updated(s, later).proceeds == s.unlent + s.proceeds
    ensures 0 <= s.proceeds && s.unlent <= Updated(s, later).unlent
    ensures Updated(s, later).pendingTime == END_OF_DAYS ==> Updated(s, later).lastDist <= later
  {
    hide Live, Remaining, Rates, Sorted, OnGrid, Running;
    EffectiveMonotone(later, later);
    ProceedsNonNegative(s, now);
    if s.started && s.lastDist < Effective(later) {
      SettledSound(s, now, Effective(later));
      SettlementNonNegative(s, now, Effective(later));
      SoundLater(Settled(s, Effective(later)), Effective(later), later);
    } else {
      SoundLater(s, now, later);
    }
  }

  lemma ProceedsNonNegative(s: Returns, now: int)
    requires Sound(s, now)
    ensures 0 <= s.proceeds
  {
    if s.started {
      RemainingNonNegative(s.buckets, s.lastDist);
    }
  }

  /** A fee joins those waiting, and otherwise starts a bucket that opens at the end of the current twelve hours. */
  predicate Collected(u: Returns, t: Returns, now: int, fee: int) {
    if u.started && u.pendingTime != 4294967295 then t.pendingTime == u.pendingTime && t.pending == u.pending + fee
    else now < t.pendingTime <= now + 43200 && t.pendingTime % 43200 == 0 && t.pending == fee
  }

  lemma FeeAddedSound(s: Returns, now: int, later: int, fee: int)
    requires Sound(s, now) && now <= later && Clock(later)
    ensures var t := FeeAdded(s, later, fee);
      Sound(t, later) && t.unlent + t.proceeds == s.unlent + s.proceeds + (if fee > 0 then fee else 0) && s.unlent <= t.unlent
    ensures fee > 0 ==> Collected(Updated(s, later), FeeAdded(s, later, fee), later, fee)
  {
    hide Updated;
    UpdatedSound(s, now, later);
    BucketEndAhead(later);
  }

  lemma BucketEndAhead(now: int)
    requires Clock(now)
    ensures now < BucketEnd(now) <= now + 43200 && BucketEnd(now) % 43200 == 0
    ensures BucketEnd(now) < END_OF_DAYS && BucketEnd(now) % 600 == 0
  {
    var q := now / 43200;
    assert BucketEnd(now) == 43200 * (q + 1) == 600 * (72 * (q + 1));
  }

  /** The pool is settled up to the last full ten minutes, unless it has been already. */
  lemma UpdatedUpTo(s: Returns, now: int)
    requires s.started
    ensures var u := Updated(s, now);
      if now - now % 600 <= s.lastDist then u == s else now - 600 < u.lastDist <= now && u.lastDist % 600 == 0
  {
    hide Settled;
    SettledKeeps(s, Effective(now));
  }

  // ---- thirty days

  /** Everything has been paid out once thirty days have passed since the last bucket opened. */
  lemma PaidInFull(s: Returns, now: int, at: int)
    requires Sound(s, now) && s.started && s.lastDist < at && at % 600 == 0 && Clock(at)
    requires forall i :: 0 <= i < |s.buckets| ==> s.buckets[i].time + 2592000 <= at
    requires s.pendingTime == 4294967295 || s.pendingTime + 2592000 <= at
    ensures Settled(s, at).proceeds == 0 && Settled(s, at).unlent == s.unlent + s.proceeds
  {
    hide Live, Rates, Remaining;
    var bs := Opened(s, at);
    assert forall i :: 0 <= i < |bs| ==> bs[i].time + 2592000 <= at;
    NothingLive(bs, at);
    NothingRemains(at);
  }

  lemma {:induction false} NothingLive(bs: seq<Bucket>, at: int)
    requires forall i :: 0 <= i < |bs| ==> bs[i].time + 2592000 <= at
    ensures Live(bs, at) == []
  {
    if bs == [] {
    } else {
      NothingLive(bs[1..], at);
    }
  }

  lemma NothingRemains(at: int)
    ensures Remaining([], at) == 0
  {
  }

  /**
   * Before that a bucket alone in the pool has paid the same amount, a 4320th of its fees rounded down, for each ten
   * minutes since it opened; what the rounding left over has been paid at once.
   */
  lemma PaidEvenly(s: Returns, at: int, rate: int, k: int)
    requires s.started && s.buckets == [] && s.pendingTime <= at < s.pendingTime + 2592000
    requires rate * 4320 <= s.pending < (rate + 1) * 4320 && 600 * k <= at - s.pendingTime < 600 * (k + 1)
    ensures Settled(s, at).proceeds == rate * (4320 - k) && Settled(s, at).rate == rate
    ensures Settled(s, at).unlent == s.unlent + s.proceeds - rate * (4320 - k)
  {
    DivModUnique(s.pending, 4320, rate, s.pending - rate * 4320);
    DivModUnique(at - s.pendingTime, 600, k, at - s.pendingTime - 600 * k);
    var b := Bucket(s.pendingTime, rate);
    assert Opened(s, at) == [b];
    RatesSnoc([], b, at);
    assert [] + [b] == [b];
    assert Live([b], at) == [b] && Rates([b]) == rate && Remaining([b], at) == rate * (4320 - k);
  }

  /**
   * Over any run every fee added is either paid into the unlent tokens or still among the proceeds, which never go
   * negative, and payments never go back.
   */
  lemma {:induction false} RunConserves(s: Returns, now: int, touches: seq<Touch>)
    requires Sound(s, now) && InOrder(touches, now)
    ensures var t := Run(s, touches);
      && Sound(t, Last(touches, now)) && 0 <= t.proceeds
      && t.unlent + t.proceeds == s.unlent + s.proceeds + Fees(touches) && s.unlent <= t.unlent
    decreases |touches|
  {
    hide Sound, FeeAdded, Clock;
    if touches == [] {
      ProceedsNonNegative(s, now);
    } else {
      FeeAddedSound(s, now, touches[0].now, touches[0].fee);
      RunConserves(FeeAdded(s, touches[0].now, touches[0].fee), touches[0].now, touches[1..]);
    }
  }

  /** Settling before a later touch makes no difference to what the touch leaves. */
  lemma SettledEarlier(s: Returns, now: int, a: int, b: int, fee: int)
    requires Sound(s, now) && now <= a <= b && Clock(a) && Clock(b)
    ensures FeeAdded(Updated(s, a), b, fee) == FeeAdded(s, b, fee)
  {
    hide Updated, Sound;
    UpdatedTwice(s, now, a, b);
  }

  /** The touches that bring a fee. */
  function OnlyFees(touches: seq<Touch>): seq<Touch> {
    if touches == [] then [] else (if touches[0].fee > 0 then [touches[0]] else []) + OnlyFees(touches[1..])
  }

  /** However often the pool has been settled in between, at any later time only the fees matter. */
  lemma {:induction false} OnlyFeesMatter(s: Returns, now: int, touches: seq<Touch>, end: int)
    requires Sound(s, now) && InOrder(touches, now) && Last(touches, now) <= end && Clock(end)
    ensures Updated(Run(s, touches), end) == Updated(Run(s, OnlyFees(touches)), end)
    decreases |touches|
  {
    hide Sound, FeeAdded, Updated, Clock;
    if touches != [] {
      var t := touches[0];
      var next := FeeAdded(s, t.now, t.fee);
      FeeAddedSound(s, now, t.now, t.fee);
      OnlyFeesMatter(next, t.now, touches[1..], end);
      if t.fee > 0 {
        assert OnlyFees(touches)[1..] == OnlyFees(touches[1..]);
      } else {
        NoFee(s, t.now, t.fee);
        LastInOrder(touches[1..], t.now);
        assert OnlyFees(touches) == OnlyFees(touches[1..]);
        DropSettlement(s, now, t.now, OnlyFees(touches[1..]), touches[1..], end);
      }
    }
  }

  lemma NoFee(s: Returns, now: int, fee: int)
    requires fee <= 0
    ensures FeeAdded(s, now, fee) == Updated(s, now)
  {
  }

  lemma {:induction false} LastInOrder(touches: seq<Touch>, from: int)
    requires InOrder(touches, from)
    ensures from <= Last(touches, from)
    ensures forall i :: 0 <= i < |OnlyFees(touches)| ==> from <= OnlyFees(touches)[i].now && Clock(OnlyFees(touches)[i].now)
    decreases |touches|
  {
    hide Clock;
    if touches == [] {
    } else {
      LastInOrder(touches[1..], touches[0].now);
    }
  }

  lemma DropSettlement(s: Returns, now: int, a: int, fees: seq<Touch>, touches: seq<Touch>, end: int)
    requires Sound(s, now) && now <= a <= end && Clock(a) && Clock(end) && fees == OnlyFees(touches)
    requires forall i :: 0 <= i < |fees| ==> a <= fees[i].now && Clock(fees[i].now)
    ensures Updated(Run(Updated(s, a), fees), end) == Updated(Run(s, fees), end)
  {
    hide Sound, FeeAdded, Updated, Clock;
    if fees == [] {
      UpdatedTwice(s, now, a, end);
    } else {
      SettledEarlier(s, now, a, fees[0].now, fees[0].fee);
    }
  }

  // ---- the rows themselves

  /** The estimate update_rex_pool starts from is what the settlement pays, before buckets that are over are taken out. */
  lemma EstimateIs(s: Returns, now: int, at: int)
    requires Sound(s, now) && s.started && s.lastDist < at && at % 600 == 0 && Clock(at)
    ensures var opening := if s.pendingTime <= at then s.pending % 4320 + (s.pending / 4320) * Intervals(s.pendingTime, at) else 0;
      s.rate * Intervals(s.lastDist, at) + opening == s.proceeds - (StillPending(s, at) + Remaining(Opened(s, at), at))
    ensures Rates(Opened(s, at)) == s.rate + (if s.pendingTime <= at then s.pending / 4320 else 0)
  {
    hide Intervals, Remaining, Rates;
    RemainingDecays(s.buckets, s.lastDist, at);
    var nb := Bucket(s.pendingTime, s.pending / 4320);
    RatesSnoc(s.buckets, nb, at);
    var i := Intervals(s.pendingTime, at);
    assert nb.rate * (4320 - i) == nb.rate * 4320 - nb.rate * i;
  }

  /** Dropping buckets that are over lowers the rate and raises what remains. */
  lemma {:induction false} LiveMonotone(bs: seq<Bucket>, at: int)
    requires OnGrid(bs)
    ensures Rates(Live(bs, at)) <= Rates(bs) && Remaining(bs, at) <= Remaining(Live(bs, at), at)
  {
    if bs == [] || bs[0].time + 2592000 > at {
    } else {
      LiveMonotone(bs[1..], at);
      MulNonNeg(bs[0].rate, Intervals(bs[0].time, at) - 4320);
      assert bs[0].rate * (4320 - Intervals(bs[0].time, at)) == -(bs[0].rate * (Intervals(bs[0].time, at) - 4320));
    }
  }

  /** With the cached oldest bucket still running nothing is over. */
  lemma NothingOver(s: Returns, now: int, at: int)
    requires Sound(s, now) && s.started && s.lastDist < at && at % 600 == 0 && Clock(at)
    requires at - 2592000 < s.oldest
    ensures Live(Opened(s, at), at) == Opened(s, at) && Oldest(Opened(s, at)) == s.oldest && s.oldest <= s.lastDist
  {
  }

  class ReturnPool {
    var started: bool
    var lastDist: int
    var pendingTime: int
    var oldest: int
    var pending: int
    var rate: int
    var proceeds: int
    var buckets: seq<Bucket>
    var unlent: int

    function Rows(): Returns
      reads this
    {
      Returns(started, lastDist, pendingTime, oldest, pending, rate, proceeds, buckets, unlent)
    }

    constructor (tokens: int, ghost now: int)
      ensures Sound(Rows(), now) && !started && unlent == tokens
    {
      started, lastDist, pendingTime, oldest, pending, rate, proceeds := false, 0, END_OF_DAYS, 0, 0, 0, 0;
      buckets, unlent := [], tokens;
    }

    /** Drop the buckets that are over: what they were counted for too long, and their rates. */
    method ExpireBuckets(at: int) returns (surplus: int, expired: int)
      modifies `buckets
      ensures buckets == Live(old(buckets), at)
      ensures expired == Rates(old(buckets)) - Rates(buckets)
      ensures surplus == Remaining(buckets, at) - Remaining(old(buckets), at)
    {
      surplus, expired := 0, 0;
      var threshold := at - 2592000;
      while buckets != [] && buckets[0].time <= threshold
        invariant Live(buckets, at) == Live(old(buckets), at)
        invariant expired == Rates(old(buckets)) - Rates(buckets)
        invariant surplus == Remaining(buckets, at) - Remaining(old(buckets), at)
        decreases |buckets|
      {
        var front := buckets[0];
        var overtime := Intervals(front.time + 2592000, at);
        OvertimeIs(front, at);
        surplus := surplus + front.rate * overtime;
        expired := expired + front.rate;
        buckets := buckets[1..];
      }
    }

    /** update_rex_pool. */
    method UpdateRexPool(now: int)
      requires Sound(Rows(), now) && Clock(now)
      modifies this
      ensures Rows() == Updated(old(Rows()), now)
    {
      var at := now - now % 600;
      if started && lastDist < at {
        EffectiveMonotone(now, now);
        Settle(now, at);
      }
    }

    /** The body of update_rex_pool once there is something to do. */
    method Settle(now: int, at: int)
      requires Sound(Rows(), now) && started && lastDist < at && at % 600 == 0 && Clock(at)
      modifies this
      ensures Rows() == Settled(old(Rows()), at)
    {
      hide Live, Remaining, Rates, Sorted, OnGrid, Running, Intervals;
      ghost var was := Rows();
      EstimateIs(was, now, at);
      SettlementNonNegative(was, now, at);
      OpenedSound(was, now, at);
      LiveMonotone(Opened(was, at), at);
      var change := rate * Intervals(lastDist, at);
      if pendingTime <= at {
        var remainder := pending % 4320;
        var newRate, newTime := (pending - remainder) / 4320, pendingTime;
        rate := rate + newRate;
        change := change + remainder + newRate * Intervals(pendingTime, at);
        pending, pendingTime := 0, END_OF_DAYS;
        if newTime < oldest {
          oldest := newTime;
        }
        buckets := buckets + [Bucket(newTime, newRate)];
      }
      proceeds := proceeds - change;
      lastDist := at;
      assert buckets == Opened(was, at) && rate == Rates(buckets) && proceeds == was.proceeds - change;
      if at - 2592000 < was.oldest {
        NothingOver(was, now, at);
      }
      if oldest <= at - 2592000 {
        var surplus, expired := ExpireBuckets(at);
        oldest := if buckets != [] then buckets[0].time else 0;
        if expired > 0 {
          rate := rate - expired;
        }
        if surplus > 0 {
          change := change - surplus;
          proceeds := proceeds + surplus;
        }
      }
      assert proceeds == Settled(was, at).proceeds && change == was.proceeds - proceeds;
      if change > 0 && proceeds < 0 {
        assert false;   // the correction of negative proceeds is never needed
      }
      if change > 0 {
        unlent := unlent + change;
      }
    }

    /** add_to_rex_return_pool. */
    method AddToRexReturnPool(now: int, fee: int)
      requires Sound(Rows(), now) && Clock(now)
      modifies this
      ensures Rows() == FeeAdded(old(Rows()), now, fee)
      ensures Sound(Rows(), now) && unlent + proceeds == old(unlent + proceeds) + if fee > 0 then fee else 0
    {
      hide Sound, Updated;
      FeeAddedSound(Rows(), now, now, fee);
      UpdateRexPool(now);
      if fee <= 0 {
        return;
      }
      var end := now - now % 43200 + 43200;
      if !started {
        started, lastDist, pending, pendingTime, proceeds := true, end, fee, end, fee;
        oldest, rate, buckets := 0, 0, [];
      } else {
        pending := pending + fee;
        proceeds := proceeds + fee;
        if pendingTime == END_OF_DAYS {
          pendingTime := end;
        }
      }
    }
  }

  lemma OvertimeIs(b: Bucket, at: int)
    ensures b.rate * Intervals(b.time + 2592000, at) == -(b.rate * (4320 - Intervals(b.time, at)))
  {
    assert Intervals(b.time + 2592000, at) == Intervals(b.time, at) - 4320;
  }
}
