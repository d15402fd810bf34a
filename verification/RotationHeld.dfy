/** What each call of check_rotation_state schedules, and how long a standby keeps its place. */
module RotationHeld {
  import opened Rotation

  /** A call that finds a rotation due: the exchange it makes, and when the next rotation is due. */
  lemma RotatingCall(s: State, ps: seq<Name>, time: int)
    requires s.inIndex >= 21 && Distinct(ps) && s.nextTime <= time
    ensures var (t, schedule) := Check(s, ps, time);
      && t.nextTime == time + 86400 && t.lastTime == time
      && (21 < |ps| ==>
            && t.outIndex == (if s.outIndex >= 20 then 0 else s.outIndex + 1)
            && t.inIndex == (if s.inIndex >= |ps| - 1 then 21 else s.inIndex + 1)
            && t.bpOut == ps[t.outIndex] && t.sbpIn == ps[t.inIndex]
            && schedule == ps[..21][t.outIndex := ps[t.inIndex]])
      && (|ps| <= 21 ==> t == s.(nextTime := t.nextTime, lastTime := t.lastTime) && schedule == ps)
  {
    if 21 < |ps| {
      SubstitutedIs(ps, NextOut(s.outIndex), NextIn(s.inIndex, |ps|));
    }
  }

  /** Both names of the rotation being held are candidates, at these positions. */
  predicate HeldAt(s: State, ps: seq<Name>, o: nat, i: nat) {
    s.bpOut != 0 && s.sbpIn != 0 && o < |ps| && i < |ps| && ps[o] == s.bpOut && ps[i] == s.sbpIn
  }

  /** A call that finds both names listed makes the exchange again, but for one out of its part of the list. */
  lemma HoldingCall(s: State, ps: seq<Name>, time: int, o: nat, i: nat)
    requires s.inIndex >= 21 && Distinct(ps) && time < s.nextTime && HeldAt(s, ps, o, i)
    ensures |ps| <= 21 ==> Check(s, ps, time) == (s, ps[o := ps[i]])
    ensures 21 < |ps| ==>
      Check(s, ps, time) == if o < 21 <= i < 42 then (s, ps[..21][o := ps[i]]) else (s.(bpOut := 0, sbpIn := 0), ps[..21])
  {
    FindsIt(ps, o);
    FindsIt(ps, i);
    if |ps| <= 21 {
      assert Substituted(ps, ps[o], ps[i]) == ps[o := ps[i]];
    } else if o < 21 <= i {
      SubstitutedIs(ps, o, i);
    }
  }

  lemma FindsIt(ps: seq<Name>, o: nat)
    requires Distinct(ps) && o < |ps|
    ensures Find(ps, ps[o]) == o
  {
    FindIs(ps, ps[o]);
  }

  /** A call that finds no rotation being held, or one of its names gone, schedules the top 21 and forgets the names. */
  lemma IdleCall(s: State, ps: seq<Name>, time: int)
    requires s.inIndex >= 21 && time < s.nextTime
    requires s.bpOut == 0 || s.sbpIn == 0 || s.bpOut !in ps || s.sbpIn !in ps
    ensures Check(s, ps, time).1 == if 21 < |ps| then ps[..21] else ps
    ensures Check(s, ps, time).0
         == if s.bpOut == 0 || s.sbpIn == 0 then s
            else if |ps| < 21 then s.(bpOut := 0, sbpIn := 0, outIndex := 21, inIndex := 43)
            else s.(bpOut := 0, sbpIn := 0)
  {
    FindIs(ps, s.bpOut);
    FindIs(ps, s.sbpIn);
  }

  /**
   * Calls with the same candidates before the next rotation is due all return the schedule of the call that rotated
   * when the standby is among the first 42, and otherwise all return the top 21.
   */
  lemma HeldThroughout(s: State, ps: seq<Name>, time: int, calls: seq<Call>)
    requires s.inIndex >= 21 && Distinct(ps) && 21 < |ps| && NO_NAME !in ps && s.nextTime <= time
    requires forall k :: 0 <= k < |calls| ==> calls[k].ps == ps && calls[k].time < time + 86400
    ensures var (t, schedule) := Check(s, ps, time);
      forall k :: 0 <= k < |calls| ==> Scheduled(After(s, Call(ps, time)), calls, k) == if t.inIndex < 42 then schedule else ps[..21]
  {
    hide Run, Check;
    RotatingCall(s, ps, time);
    var t := After(s, Call(ps, time));
    forall k | 0 <= k < |calls|
      ensures Scheduled(t, calls, k) == if t.inIndex < 42 then Check(s, ps, time).1 else ps[..21]
    {
      HeldState(t, ps, calls[..k]);
      var u := Run(t, calls[..k]);
      if u.bpOut == 0 {
        IdleCall(u, ps, calls[k].time);
      } else {
        HoldingCall(u, ps, calls[k].time, t.outIndex, t.inIndex);
      }
    }
  }

  /** The schedule call k of a run returns. */
  function Scheduled(s: State, calls: seq<Call>, k: nat): seq<Name>
    requires s.inIndex >= 21 && k < |calls|
  {
    Check(Run(s, calls[..k]), calls[k].ps, calls[k].time).1
  }

  /** While a rotation is held nothing moves; one whose standby is out of range is dropped at the first call. */
  lemma {:induction false} HeldState(t: State, ps: seq<Name>, calls: seq<Call>)
    requires t.inIndex >= 21 && Distinct(ps) && 21 < |ps| && HeldAt(t, ps, t.outIndex, t.inIndex) && t.outIndex < 21
    requires forall k :: 0 <= k < |calls| ==> calls[k].ps == ps && calls[k].time < t.nextTime
    ensures Run(t, calls) == if t.inIndex < 42 || calls == [] then t else t.(bpOut := 0, sbpIn := 0)
  {
    hide Check;
    var m := |calls|;
    if m == 0 {
    } else {
      RunLast(t, calls);
      HeldState(t, ps, calls[..m - 1]);
      var u := Run(t, calls[..m - 1]);
      if u.bpOut == 0 {
        IdleCall(u, ps, calls[m - 1].time);
      } else {
        HoldingCall(u, ps, calls[m - 1].time, t.outIndex, t.inIndex);
      }
    }
  }
}
