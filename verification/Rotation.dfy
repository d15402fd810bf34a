/** Rotating standby producers into the schedule of 21. */
module Rotation {
  import opened Products


  type Name = int   // the 64-bit value of an account name; 0 is no name

  const NO_NAME: Name := 0

  /** 12 hours, in block slots of half a second. */
  const PERIOD := 86400

  datatype State = State(bpOut: Name, sbpIn: Name, outIndex: nat, inIndex: nat, nextTime: int, lastTime: int)

  /** The rotation_state the contract starts with. */
  function Initial(): State {
    State(0, 0, 21, 75, 0, 0)
  }

  predicate Distinct(ps: seq<Name>) {
    forall i, j :: 0 <= i < j < |ps| ==> ps[i] != ps[j]
  }

  function NextOut(i: nat): nat {
    if i >= 20 then 0 else i + 1
  }

  function NextIn(i: nat, n: nat): nat
    requires n > 21
  {
    if i >= n - 1 then 21 else i + 1
  }

  /** std::find_if: the position of a name, or the length when it is not there. */
  function Find(ps: seq<Name>, p: Name): (i: nat)
    ensures i <= |ps|
  {
    if ps == [] || ps[0] == p then 0 else 1 + Find(ps[1..], p)
  }

  /** The first 21 of ps with every occurrence of `out` replaced by `standby`. */
  function Substituted(ps: seq<Name>, out: Name, standby: Name): seq<Name> {
    seq(if |ps| < 21 then |ps| else 21, i requires 0 <= i < |ps| => if ps[i] == out then standby else ps[i])
  }

  function Top(ps: seq<Name>): seq<Name> {
    if |ps| > 21 then ps[..21] else ps
  }

  predicate Rotates(s: State, time: int) {
    s.nextTime <= time
  }

  function Rescheduled(s: State, time: int): State {
    s.(lastTime := time, nextTime := time + PERIOD)
  }

  /** check_rotation_state: the new state and the schedule. */
  function Check(s: State, ps: seq<Name>, time: int): (State, seq<Name>)
    requires s.inIndex >= 21
  {
    var n := |ps|;
    if Rotates(s, time) then
      if n > 21 then
        var o, i := NextOut(s.outIndex), NextIn(s.inIndex, n);
        (Rescheduled(s.(outIndex := o, inIndex := i, bpOut := ps[o], sbpIn := ps[i]), time), Substituted(ps, ps[o], ps[i]))
      else (Rescheduled(s, time), Top(ps))
    else if s.bpOut == NO_NAME || s.sbpIn == NO_NAME then (s, Top(ps))
    else
      var o, i := Find(ps, s.bpOut), Find(ps, s.sbpIn);
      if o == n || i == n then
        var cleared := s.(bpOut := NO_NAME, sbpIn := NO_NAME);
        (if n < 21 then cleared.(outIndex := 21, inIndex := 43) else cleared, Top(ps))
      else if n > 21 && (o >= 21 || i < 21 || i >= 42) then (s.(bpOut := NO_NAME, sbpIn := NO_NAME), Top(ps))
      else (s, Substituted(ps, ps[o], ps[i]))
  }

  // ---- one schedule

  lemma {:induction false} FindIs(ps: seq<Name>, p: Name)
    ensures Find(ps, p) < |ps| ==> ps[Find(ps, p)] == p
    ensures Find(ps, p) == |ps| <==> p !in ps
  {
    if ps == [] || ps[0] == p {
    } else {
      FindIs(ps[1..], p);
      assert ps == [ps[0]] + ps[1..];
    }
  }

  ghost predicate Replaced(ps: seq<Name>, o: int, i: int, schedule: seq<Name>) {
    0 <= o < 21 <= i < |ps| && schedule == ps[..21][o := ps[i]]
  }

  /** The top 21, with at most one of them replaced by a standby from position 21 on. */
  ghost predicate OneStandbyAtMost(ps: seq<Name>, schedule: seq<Name>)
    requires |ps| > 21
  {
    schedule == ps[..21] || exists o, i :: Replaced(ps, o, i, schedule)
  }

  lemma SubstitutedIs(ps: seq<Name>, o: nat, i: nat)
    requires Distinct(ps) && o < 21 <= i < |ps|
    ensures Substituted(ps, ps[o], ps[i]) == ps[..21][o := ps[i]]
    ensures Distinct(ps[..21][o := ps[i]])
  {
  }

  /**
   * With more than 21 distinct candidates every schedule has exactly 21 distinct producers, and is the top 21 with at
   * most one replaced by a standby.
   */
  lemma ScheduleIsSound(s: State, ps: seq<Name>, time: int)
    requires s.inIndex >= 21 && Distinct(ps) && 21 < |ps|
    ensures var schedule := Check(s, ps, time).1;
      |schedule| == 21 && Distinct(schedule) && OneStandbyAtMost(ps, schedule)
  {
    var n := |ps|;
    if Rotates(s, time) {
      SubstitutedIs(ps, NextOut(s.outIndex), NextIn(s.inIndex, n));
      assert Replaced(ps, NextOut(s.outIndex), NextIn(s.inIndex, n), Check(s, ps, time).1);
    } else {
      FindIs(ps, s.bpOut);
      FindIs(ps, s.sbpIn);
      var o, i := Find(ps, s.bpOut), Find(ps, s.sbpIn);
      if s.bpOut != NO_NAME && s.sbpIn != NO_NAME && o < 21 && 21 <= i < n && i < 42 {
        SubstitutedIs(ps, o, i);
        assert Replaced(ps, o, i, Check(s, ps, time).1);
      }
    }
  }

  /**
   * With at most 21 candidates the schedule repeats a name exactly when the rotation is being held and both of its
   * names are still listed and differ.
   */
  lemma SmallScheduleExactly(s: State, ps: seq<Name>, time: int)
    requires s.inIndex >= 21 && Distinct(ps) && |ps| <= 21
    ensures Distinct(Check(s, ps, time).1) <==>
      (Rotates(s, time) || s.bpOut == NO_NAME || s.sbpIn == NO_NAME || s.bpOut !in ps || s.sbpIn !in ps || s.bpOut == s.sbpIn)
    ensures |Check(s, ps, time).1| == |ps|
  {
    FindIs(ps, s.bpOut);
    FindIs(ps, s.sbpIn);
    if !Rotates(s, time) && s.bpOut != NO_NAME && s.sbpIn != NO_NAME && s.bpOut in ps && s.sbpIn in ps {
      var o, i := Find(ps, s.bpOut), Find(ps, s.sbpIn);
      var schedule := Substituted(ps, ps[o], ps[i]);
      assert Check(s, ps, time).1 == schedule && schedule[o] == ps[i] && schedule[i] == ps[i];
      if s.bpOut == s.sbpIn {
        assert schedule == ps;
      }
    }
  }

  // ---- runs

  /** One call of update_elected_producers: the candidates and the block time. */
  datatype Call = Call(ps: seq<Name>, time: int)

  /** The standby index never points into the top 21. */
  lemma InIndexStays(s: State, ps: seq<Name>, time: int)
    requires s.inIndex >= 21
    ensures Check(s, ps, time).0.inIndex >= 21
  {
  }

  function After(s: State, c: Call): (t: State)
    requires s.inIndex >= 21
    ensures t.inIndex >= 21
  {
    InIndexStays(s, c.ps, c.time);
    Check(s, c.ps, c.time).0
  }

  function Run(s: State, calls: seq<Call>): (t: State)
    requires s.inIndex >= 21
    ensures t.inIndex >= 21
    decreases |calls|
  {
    if calls == [] then s else Run(After(s, calls[0]), calls[1..])
  }

  /** How many of the calls find a rotation due. */
  function Rotations(s: State, calls: seq<Call>): nat
    requires s.inIndex >= 21
    decreases |calls|
  {
    if calls == [] then 0
    else (if Rotates(s, calls[0].time) then 1 else 0) + Rotations(After(s, calls[0]), calls[1..])
  }

  /** The last call of a run. */
  lemma {:induction false} RunLast(s: State, calls: seq<Call>)
    requires s.inIndex >= 21 && calls != []
    ensures var init, last := calls[..|calls| - 1], calls[|calls| - 1];
      && Run(s, calls) == After(Run(s, init), last)
      && Rotations(s, calls) == Rotations(s, init) + (if Rotates(Run(s, init), last.time) then 1 else 0)
    decreases |calls|
  {
    hide After, Rotates;
    var m := |calls|;
    if m == 1 {
      assert calls[1..] == [] && calls[..0] == [];
    } else {
      RunLast(After(s, calls[0]), calls[1..]);
      assert calls[..m - 1][1..] == calls[1..][..m - 2];
    }
  }

  /** Rotations are at least twelve hours apart: nothing but a rotation moves the next one, and each moves it that far. */
  lemma RotationsApart(s: State, calls: seq<Call>, time: int)
    requires s.inIndex >= 21 && Rotates(Run(s, calls), time)
    ensures calls != [] && Rotates(s, calls[0].time) ==> calls[0].time + PERIOD <= time
  {
    if calls != [] && Rotates(s, calls[0].time) {
      NextTimeGrows(After(s, calls[0]), calls[1..]);
    }
  }

  lemma {:induction false} NextTimeGrows(s: State, calls: seq<Call>)
    requires s.inIndex >= 21
    ensures s.nextTime <= Run(s, calls).nextTime
    decreases |calls|
  {
    if calls == [] {
    } else {
      NextTimeGrows(After(s, calls[0]), calls[1..]);
    }
  }

  // ---- going around

  /** The indices after k rotations, with n candidates throughout. */
  function OutAfter(i: nat, k: nat): nat {
    if k == 0 then i else NextOut(OutAfter(i, k - 1))
  }

  function InAfter(i: nat, n: nat, k: nat): nat
    requires n > 21
  {
    if k == 0 then i else NextIn(InAfter(i, n, k - 1), n)
  }

  /** Where the next rotation takes an index to be: past the end counts as at the end. */
  function Place(i: nat, last: nat): nat {
    if i >= last then last else i
  }

  lemma {:induction false} OutAfterIs(i: nat, k: nat)
    requires k > 0
    ensures OutAfter(i, k) == (Place(i, 20) + k) % 21
  {
    var c := Place(i, 20);
    assert OutAfter(i, k) == NextOut(OutAfter(i, k - 1));
    NextMod(c + (k - 1), c + k, 21);
    if k == 1 {
      SmallMod(c, 21);
    } else {
      OutAfterIs(i, k - 1);
    }
  }

  lemma {:induction false} InAfterIs(i: nat, n: nat, k: nat)
    requires 21 <= i && 21 < n && k > 0
    ensures InAfter(i, n, k) == 21 + (Place(i, n - 1) - 21 + k) % (n - 21)
  {
    var c, m := Place(i, n - 1) - 21, n - 21;
    assert InAfter(i, n, k) == NextIn(InAfter(i, n, k - 1), n);
    NextMod(c + (k - 1), c + k, m);
    if k == 1 {
      SmallMod(c, m);
    } else {
      InAfterIs(i, n, k - 1);
    }
  }

  lemma SmallMod(a: nat, m: nat)
    requires a < m
    ensures a % m == a
  {
    DivModUnique(a, m, 0, a);
  }

  lemma NextMod(a: nat, b: nat, m: nat)
    requires m > 0 && b == a + 1
    ensures b % m == if a % m == m - 1 then 0 else a % m + 1
    ensures 0 <= a % m < m
  {
    var q, r := a / m, a % m;
    DivModExact(a, m);
    if r == m - 1 {
      assert (q + 1) * m == q * m + m;
      DivModUnique(b, m, q + 1, 0);
    } else {
      DivModUnique(b, m, q, r + 1);
    }
  }

  /** Stepping around a cycle of length m meets every place once in any m successive steps. */
  lemma CycleMeets(c: nat, m: nat, start: nat, t: nat) returns (k: nat)
    requires t < m
    ensures start <= k < start + m && (c + k) % m == t
  {
    var q, r := (c + start) / m, (c + start) % m;
    DivModExact(c + start, m);
    if r <= t {
      k := start + t - r;
      DivModUnique(c + k, m, q, t);
    } else {
      k := start + t - r + m;
      assert (q + 1) * m == q * m + m;
      DivModUnique(c + k, m, q + 1, t);
    }
  }

  lemma CycleMeetsOnce(c: nat, m: nat, j: nat, k: nat)
    requires j < k < j + m
    ensures (c + j) % m != (c + k) % m
  {
    DivModExact(c + j, m);
    DivModExact(c + k, m);
    if (c + j) % m == (c + k) % m {
      var q, p := (c + j) / m, (c + k) / m;
      assert (p - q) * m == p * m - q * m;
      if p <= q { MulLe(p - q, 0, m); } else { MulLe(1, p - q, m); }
    }
  }

  /** Only rotations move the indices, each by one place: calls that find a rotation being held leave them alone. */
  lemma {:induction false} RotatedIndices(s: State, calls: seq<Call>, n: nat)
    requires s.inIndex >= 21 && n > 21
    requires forall k :: 0 <= k < |calls| ==> |calls[k].ps| > 21
    ensures Run(s, calls).outIndex == OutAfter(s.outIndex, Rotations(s, calls))
    ensures (forall k :: 0 <= k < |calls| ==> |calls[k].ps| == n) ==>
      Run(s, calls).inIndex == InAfter(s.inIndex, n, Rotations(s, calls))
    decreases |calls|
  {
    if calls == [] {
    } else {
      RunLast(s, calls);
      RotatedIndices(s, calls[..|calls| - 1], n);
    }
  }

  /** The r-th rotation of a run. */
  lemma {:induction false} NthRotation(s: State, calls: seq<Call>, r: nat) returns (k: nat)
    requires s.inIndex >= 21 && 1 <= r <= Rotations(s, calls)
    ensures k < |calls| && RotatesAt(s, calls, k) && Rotations(s, calls[..k + 1]) == r
    decreases |calls|
  {
    hide Run, Rotates;
    var m := |calls|;
    var init := calls[..m - 1];
    RunLast(s, calls);
    if r <= Rotations(s, init) {
      k := NthRotation(s, init, r);
      assert init[..k] == calls[..k] && init[..k + 1] == calls[..k + 1];
    } else {
      k := m - 1;
      assert calls[..m] == calls;
    }
  }

  /** Call k of a run finds a rotation due. */
  predicate RotatesAt(s: State, calls: seq<Call>, k: nat)
    requires s.inIndex >= 21 && k < |calls|
  {
    Rotates(Run(s, calls[..k]), calls[k].time)
  }

  lemma {:induction false} RotationsGrow(s: State, calls: seq<Call>, k: nat)
    requires s.inIndex >= 21 && k <= |calls|
    ensures Rotations(s, calls[..k]) <= Rotations(s, calls)
    decreases |calls|
  {
    hide Run, Rotates;
    if k == |calls| {
      assert calls[..k] == calls;
    } else {
      var init := calls[..|calls| - 1];
      RunLast(s, calls);
      RotationsGrow(s, init, k);
      assert init[..k] == calls[..k];
    }
  }

  /** Up to and including a rotation there has been one more than before it. */
  lemma CountedAt(s: State, calls: seq<Call>, k: nat)
    requires s.inIndex >= 21 && k < |calls| && RotatesAt(s, calls, k)
    ensures Rotations(s, calls[..k + 1]) == Rotations(s, calls[..k]) + 1
    ensures Rotations(s, calls[..k + 1]) <= Rotations(s, calls)
  {
    hide Run, Rotates;
    RunLast(s, calls[..k + 1]);
    assert calls[..k + 1][..k] == calls[..k];
    RotationsGrow(s, calls, k + 1);
  }

  /** A later rotation has a higher number. */
  lemma CountedApart(s: State, calls: seq<Call>, j: nat, k: nat)
    requires s.inIndex >= 21 && j < k < |calls| && RotatesAt(s, calls, j) && RotatesAt(s, calls, k)
    ensures 1 <= Rotations(s, calls[..j + 1]) < Rotations(s, calls[..k + 1]) <= Rotations(s, calls)
  {
    hide Run, Rotates, Rotations;
    CountedAt(s, calls, j);
    CountedAt(s, calls, k);
    RotationsGrow(s, calls[..k], j + 1);
    assert calls[..k][..j + 1] == calls[..j + 1];
  }

  /** Call k rotates the producer at position `top` out. */
  predicate SentOut(s: State, calls: seq<Call>, k: nat, top: nat)
    requires s.inIndex >= 21 && k < |calls|
  {
    RotatesAt(s, calls, k) && Run(s, calls[..k + 1]).outIndex == top
  }

  /** Call k rotates the candidate at position `standby` in. */
  predicate BroughtIn(s: State, calls: seq<Call>, k: nat, standby: nat)
    requires s.inIndex >= 21 && k < |calls|
  {
    RotatesAt(s, calls, k) && Run(s, calls[..k + 1]).inIndex == standby
  }

  /** The call that rotates returns the top 21 with exactly that exchange made. */
  lemma ExchangedAt(s: State, calls: seq<Call>, k: nat, top: nat, standby: nat)
    requires s.inIndex >= 21 && k < |calls| && |calls[k].ps| > 21 && Distinct(calls[k].ps)
    requires SentOut(s, calls, k, top) && BroughtIn(s, calls, k, standby)
    ensures top < 21 <= standby < |calls[k].ps|
    ensures Check(Run(s, calls[..k]), calls[k].ps, calls[k].time).1 == calls[k].ps[..21][top := calls[k].ps[standby]]
  {
    hide Run;
    RunLast(s, calls[..k + 1]);
    assert calls[..k + 1][..k] == calls[..k];
    SubstitutedIs(calls[k].ps, top, standby);
  }

  /**
   * In any stretch of calls with 21 rotations, and more than 21 candidates in each, every top position goes out
   * exactly once, however many calls hold a rotation in between and whatever came before.
   */
  lemma EachOutOnce(s: State, calls: seq<Call>, top: nat)
    requires s.inIndex >= 21 && top < 21 && Rotations(s, calls) == 21
    requires forall k :: 0 <= k < |calls| ==> |calls[k].ps| > 21
    ensures exists k: nat :: k < |calls| && SentOut(s, calls, k, top)
    ensures forall j: nat, k: nat :: j < k < |calls| && SentOut(s, calls, j, top) ==> !SentOut(s, calls, k, top)
  {
    hide OutAfter, Rotations, Run, RotatesAt;
    var c := Place(s.outIndex, 20);
    var r := CycleMeets(c, 21, 1, top);
    var k := NthRotation(s, calls, r);
    RotatedIndices(s, calls[..k + 1], 22);
    OutAfterIs(s.outIndex, r);
    assert SentOut(s, calls, k, top);
    forall i: nat, j: nat | i < j < |calls| && SentOut(s, calls, i, top)
      ensures !SentOut(s, calls, j, top)
    {
      if SentOut(s, calls, j, top) {
        CountedApart(s, calls, i, j);
        var p, q := Rotations(s, calls[..i + 1]), Rotations(s, calls[..j + 1]);
        RotatedIndices(s, calls[..i + 1], 22);
        RotatedIndices(s, calls[..j + 1], 22);
        OutAfterIs(s.outIndex, p);
        OutAfterIs(s.outIndex, q);
        CycleMeetsOnce(c, 21, p, q);
      }
    }
  }

  /** In any stretch of calls with n - 21 rotations and n candidates in each, every standby position comes in exactly once. */
  lemma EachInOnce(s: State, calls: seq<Call>, n: nat, standby: nat)
    requires s.inIndex >= 21 && 21 <= standby < n && Rotations(s, calls) == n - 21
    requires forall k :: 0 <= k < |calls| ==> |calls[k].ps| == n
    ensures exists k: nat :: k < |calls| && BroughtIn(s, calls, k, standby)
    ensures forall j: nat, k: nat :: j < k < |calls| && BroughtIn(s, calls, j, standby) ==> !BroughtIn(s, calls, k, standby)
  {
    hide InAfter, Rotations, Run, RotatesAt;
    var c, m := Place(s.inIndex, n - 1) - 21, n - 21;
    var r := CycleMeets(c, m, 1, standby - 21);
    var k := NthRotation(s, calls, r);
    RotatedIndices(s, calls[..k + 1], n);
    InAfterIs(s.inIndex, n, r);
    assert BroughtIn(s, calls, k, standby);
    forall i: nat, j: nat | i < j < |calls| && BroughtIn(s, calls, i, standby)
      ensures !BroughtIn(s, calls, j, standby)
    {
      if BroughtIn(s, calls, j, standby) {
        CountedApart(s, calls, i, j);
        var p, q := Rotations(s, calls[..i + 1]), Rotations(s, calls[..j + 1]);
        RotatedIndices(s, calls[..i + 1], n);
        RotatedIndices(s, calls[..j + 1], n);
        InAfterIs(s.inIndex, n, p);
        InAfterIs(s.inIndex, n, q);
        CycleMeetsOnce(c, m, p, q);
      }
    }
  }

  /**
   * A schedule with a repeated name is within reach of the first two calls: 22 candidates, of whom the one at position
   * 20 is gone half a second later, while the rotation of the first against the last is being held.
   */
  lemma HeldRotationRepeats(ps: seq<Name>, time: nat)
    requires |ps| == 22 && Distinct(ps) && NO_NAME !in ps
    ensures var s := After(Initial(), Call(ps, time));
      var fewer := ps[..20] + [ps[21]];
      Distinct(fewer) && !Distinct(Check(s, fewer, time + 1).1)
  {
    var s := After(Initial(), Call(ps, time));
    var fewer := ps[..20] + [ps[21]];
    assert s.bpOut == ps[0] && s.sbpIn == ps[21] && !Rotates(s, time + 1);
    assert fewer[0] == ps[0] && fewer[20] == ps[21];
    SmallScheduleExactly(s, fewer, time + 1);
  }

  // ---- the rows themselves

  class Contract {
    var bpOut: Name
    var sbpIn: Name
    var outIndex: nat
    var inIndex: nat
    var nextTime: int
    var lastTime: int

    function Rows(): State
      reads this
    {
      State(bpOut, sbpIn, outIndex, inIndex, nextTime, lastTime)
    }

    constructor ()
      ensures Rows() == Initial() && inIndex >= 21
    {
      bpOut, sbpIn, outIndex, inIndex, nextTime, lastTime := 0, 0, 21, 75, 0, 0;
    }

    method FindName(ps: seq<Name>, p: Name) returns (i: nat)
      ensures i == Find(ps, p)
    {
      i := 0;
      while i < |ps| && ps[i] != p
        invariant i <= |ps|
        invariant Find(ps, p) == i + Find(ps[i..], p)
      {
        i := i + 1;
      }
    }

    /** The loop that builds the schedule. */
    method BuildSchedule(ps: seq<Name>, o: nat, i: nat) returns (schedule: seq<Name>)
      requires o < |ps| && i < |ps|
      ensures schedule == Substituted(ps, ps[o], ps[i])
    {
      schedule := [];
      var k := 0;
      while k < |ps|
        invariant k == |schedule| <= |ps| && k <= 21
        invariant forall j :: 0 <= j < k ==> schedule[j] == if ps[j] == ps[o] then ps[i] else ps[j]
      {
        if k > 20 {
          break;
        }
        if ps[k] == ps[o] {
          schedule := schedule + [ps[i]];
        } else {
          schedule := schedule + [ps[k]];
        }
        k := k + 1;
      }
    }

    /** check_rotation_state. */
    method CheckRotationState(ps: seq<Name>, time: int) returns (schedule: seq<Name>)
      requires inIndex >= 21
      modifies this
      ensures (Rows(), schedule) == Check(old(Rows()), ps, time) && inIndex >= 21
    {
      hide Find, Substituted;
      var n := |ps|;
      var o, i := n, n;   // both iterators at the end
      if nextTime <= time {
        if n > 21 {
          outIndex := if outIndex >= 20 then 0 else outIndex + 1;
          inIndex := if inIndex >= n - 1 then 21 else inIndex + 1;
          o, i := outIndex, inIndex;
          bpOut, sbpIn := ps[o], ps[i];
        }
        lastTime, nextTime := time, time + PERIOD;
      } else if bpOut != NO_NAME && sbpIn != NO_NAME {
        o := FindName(ps, bpOut);
        i := FindName(ps, sbpIn);
        if o == n || i == n {
          bpOut, sbpIn := NO_NAME, NO_NAME;
          if n < 21 {
            outIndex, inIndex := 21, 43;
          }
        } else if n > 21 && (!(0 <= o < 21) || !(21 <= i < 42)) {
          bpOut, sbpIn := NO_NAME, NO_NAME;
          o, i := n, n;
        }
      }
      if o != n && i != n {
        schedule := BuildSchedule(ps, o, i);
      } else {
        schedule := if n > 21 then ps[..21] else ps;
      }
    }
  }
}
