/** update_votes, changing the voters and producers tables in place. */
module VotingContract {
  import opened Outcomes
  import opened Voting
  import opened VoteDeltas
  import RealSums

  class Contract {
    const curve: Curve
    var voters: map<Name, Voter>
    var producers: map<Name, Producer>
    var activated: int
    var weight: real

    function Rows(): Tally
      reads this
    {
      Tally(voters, producers, activated, weight)
    }

    ghost predicate Implements(out: Outcome<()>, spec: Outcome<Tally>)
      reads this
    {
      if out.Ok? then spec == Ok(Rows()) else SameFailure(out, spec)
    }

    constructor (w: Curve)
      ensures curve == w && Rows() == Tally(map[], map[], 0, 0.0)
    {
      curve := w;
      voters, producers, activated, weight := map[], map[], 0, 0.0;
    }

    method CheckSorted(ps: seq<Name>) returns (sorted: bool)
      ensures sorted == Increasing(ps)
    {
      var i := 1;
      while i < |ps|
        invariant 1 <= i
        invariant forall j :: 1 <= j < i && j < |ps| ==> ps[j - 1] < ps[j]
      {
        if ps[i] <= ps[i - 1] {
          return false;
        }
        i := i + 1;
      }
      return true;
    }

    /** The old votes' part of producer_deltas. */
    method TakeBackVotes(ps: seq<Name>, oldWeight: real) returns (entries: map<Name, Entry>)
      requires Increasing(ps)
      ensures entries == TakenBack(ps, oldWeight)
    {
      entries := map[];
      for i := 0 to |ps|
        invariant entries == TakenBack(ps[..i], oldWeight)
      {
        NotBefore(ps, i);
        entries := entries[ps[i] := Entry(0.0 - oldWeight, false)];
      }
      assert ps[..|ps|] == ps;
    }

    /** The new votes' part of producer_deltas. */
    method AddVotes(taken: map<Name, Entry>, ps: seq<Name>, newWeight: real) returns (entries: map<Name, Entry>)
      requires Increasing(ps)
      ensures entries == Added(taken, ps, newWeight)
    {
      hide Added;
      entries := taken;
      NoneAdded(taken, newWeight);
      assert ps[..0] == [];
      for i := 0 to |ps|
        invariant entries == Added(taken, ps[..i], newWeight)
      {
        NotBefore(ps, i);
        OneAdded(taken, ps[..i], ps[i], newWeight);
        var was := if ps[i] in entries then entries[ps[i]].change else 0.0;
        entries := entries[ps[i] := Entry(was + newWeight, true)];
      }
      assert ps[..|ps|] == ps;
    }

    /** The loop over producer_deltas; a flat_map is walked in order of names, which makes no difference here. */
    method ApplyDeltas(entries: map<Name, Entry>, voting: bool) returns (out: Outcome<()>)
      modifies `producers, `weight
      ensures out.Ok? <==> forall p :: p in entries && entries[p].isNew ==> Votable(old(producers), p, voting)
      ensures !out.Broken?
      ensures out.Ok? ==> producers == WithDeltas(old(producers), Known(entries, {}, old(producers)))
      ensures out.Ok? ==> weight == old(weight) + RealSums.Sum(Known(entries, {}, old(producers)), Voting.Delta)
    {
      hide RealSums.Sum, WithDeltas, Known;
      var rest := entries.Keys;
      ghost var rows := producers;
      NothingKnown(entries, rows);
      while rest != {}
        invariant rest <= entries.Keys
        invariant forall p :: p in entries && p !in rest && entries[p].isNew ==> Votable(rows, p, voting)
        invariant producers == WithDeltas(rows, Known(entries, rest, rows))
        invariant weight == old(weight) + RealSums.Sum(Known(entries, rest, rows), Voting.Delta)
        decreases |rest|
      {
        var p := PickOne(rest);
        var entry := entries[p];
        OneKnown(rows, entries, rest, p);
        if p in producers {
          var allowed := !(voting && !producers[p].active && entry.isNew);
          :- Check(allowed);
          var row := producers[p];
          row := row.(votes := row.votes + entry.change);
          if row.votes < 0.0 {
            row := row.(votes := 0.0);
          }
          producers := producers[p := row];
          weight := weight + entry.change;
        } else {
          var allowed := !entry.isNew;
          :- Check(allowed);
        }
        rest := rest - {p};
      }
      return Ok(());
    }

    /** update_votes. */
    method UpdateVotes(name: Name, proxy: Name, ps: seq<Name>, voting: bool) returns (out: Outcome<()>)
      requires VotesSorted(voters)
      modifies this
      ensures Implements(out, Voting.UpdateVotes(old(Rows()), curve, name, proxy, ps, voting))
    {
      if proxy != NO_PROXY {
        var allowed := ps == [];
        :- Check(allowed);
        :- Check(name != proxy);
        :- Check(name in voters);
        :- Check(!voters[name].isProxy);
        :- Check(proxy in voters);
        :- Check(!voting || voters[proxy].isProxy);
        return Broken(LogicError);
      }
      out := CountVotes(name, ps, voting);
    }

    method CountVotes(name: Name, ps: seq<Name>, voting: bool) returns (out: Outcome<()>)
      requires VotesSorted(voters)
      modifies this
      ensures Implements(out, Voting.UpdateVotes(old(Rows()), curve, name, NO_PROXY, ps, voting))
    {
      hide RealSums.Sum, VoteWeight, WithDeltas, Deltas, Added, TakenBack, Known;
      :- Check(|ps| <= 30);
      var sorted := CheckSorted(ps);
      :- Check(sorted);
      :- Check(name in voters);
      var v := voters[name];
      :- Expected(!v.isProxy && v.proxy == NO_PROXY, LogicError);
      var totalStaked := v.staked;
      if voting && |ps| == 0 {
        totalStaked := 0;
      }
      activated := activated + (totalStaked - v.lastStake);
      var newWeight := VoteWeight(curve, totalStaked, |ps|);
      var taken: map<Name, Entry> := map[];
      if v.lastStake > 0 {
        taken := TakeBackVotes(v.producers, v.lastWeight);
      }
      var entries := AddVotes(taken, ps, newWeight);
      EntriesAre(v, ps, newWeight, entries, producers, voting);
      var _ :- ApplyDeltas(entries, voting);
      voters := voters[name := v.(lastWeight := newWeight, lastStake := totalStaked, producers := ps)];
      return Ok(());
    }

    /** voteproducer, with the stake the voter is left with by vote_stake_updater. */
    method VoteProducer(name: Name, proxy: Name, ps: seq<Name>, staked: nat) returns (out: Outcome<()>)
      requires VotesSorted(voters)
      modifies this
      ensures Implements(out, Voting.Vote(old(Rows()), curve, name, proxy, ps, staked))
    {
      hide Voting.UpdateVotes;
      if name in voters {
        voters := voters[name := voters[name].(staked := staked)];
      }
      out := UpdateVotes(name, proxy, ps, true);
    }

    /** update_voting_power, by which the voter ends with this stake. */
    method UpdateVotingPower(name: Name, staked: nat) returns (out: Outcome<()>)
      requires VotesSorted(voters)
      modifies this
      ensures Implements(out, Voting.Restake(old(Rows()), curve, name, staked))
    {
      hide Voting.UpdateVotes;
      if name !in voters {
        voters := voters[name := NewVoter(staked)];
      } else {
        voters := voters[name := voters[name].(staked := staked)];
      }
      if |voters[name].producers| != 0 || voters[name].proxy != NO_PROXY {
        out := UpdateVotes(name, voters[name].proxy, voters[name].producers, false);
        return;
      }
      return Ok(());
    }

    method RegProxy(name: Name, isProxy: bool) returns (out: Outcome<()>)
      requires VotesSorted(voters)
      modifies this
      ensures Implements(out, Voting.RegisterProxy(old(Rows()), curve, name, isProxy))
    {
      hide Voting.UpdateVotes;
      :- Check(!isProxy);
      if name in voters {
        var allowed := isProxy != voters[name].isProxy;
        :- Check(allowed);
        voters := voters[name := voters[name].(isProxy := isProxy)];
        out := UpdateVotes(name, voters[name].proxy, voters[name].producers, true);
        return;
      }
      voters := voters[name := NewVoter(0)];
      return Ok(());
    }

    method RegProducer(p: Name)
      modifies `producers
      ensures Rows() == Register(old(Rows()), p)
    {
      if p in producers {
        producers := producers[p := producers[p].(active := true)];
      } else {
        producers := producers[p := Producer(0.0, true)];
      }
    }

    /** unregprod, rmvproducer and votebpout. */
    method Deactivate(p: Name) returns (out: Outcome<()>)
      modifies `producers
      ensures Implements(out, Unregister(old(Rows()), p))
    {
      var allowed := p in producers;
      :- Check(allowed);
      producers := producers[p := producers[p].(active := false)];
      return Ok(());
    }

    method Dispatch(a: Action) returns (out: Outcome<()>)
      requires VotesSorted(voters)
      modifies this
      ensures Implements(out, Step(old(Rows()), curve, a))
    {
      hide Voting.UpdateVotes;
      match a
      case VoteProducer(voter, proxy, ps, staked) => out := VoteProducer(voter, proxy, ps, staked);
      case ChangeStake(voter, staked) => out := UpdateVotingPower(voter, staked);
      case RegProxy(voter, isProxy) => out := RegProxy(voter, isProxy);
      case RegProducer(p) =>
        RegProducer(p);
        out := Ok(());
      case Deactivate(p) => out := Deactivate(p);
    }

    /**
     * One action as a transaction: it takes effect or leaves both tables as they were. While the totals are a recount of
     * the voters' stakes they go on being one, and the action fails only by being refused.
     */
    method Push(a: Action) returns (out: Outcome<()>)
      requires IsCurve(curve) && Current(Rows(), curve)
      modifies this
      ensures Rows() == After(old(Rows()), curve, a)
      ensures Current(Rows(), curve) && Recounted(Rows(), curve) && !out.Broken?
    {
      hide Step, Agrees, AllUpToDate, Recounted;
      ghost var was := Rows();
      AgreementSorts(was, curve);
      StepAgrees(was, curve, a);
      var oldVoters, oldProducers, oldActivated, oldWeight := voters, producers, activated, weight;
      out := Dispatch(a);
      if !out.Ok? {
        voters, producers, activated, weight := oldVoters, oldProducers, oldActivated, oldWeight;
      }
      CurrentIsRecounted(Rows(), curve);
    }
  }
}
