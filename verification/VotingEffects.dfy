/** Which voting actions go through, and whose rows they change. */
module VotingEffects {
  import opened Outcomes
  import opened Voting
  import RealSums
  import TableSums

  /** No voter's row differs but that of n. */
  ghost predicate OtherVoters(t: Tally, u: Tally, n: Name) {
    forall m :: m != n ==> (m in u.voters <==> m in t.voters) && (m in u.voters ==> u.voters[m] == t.voters[m])
  }

  /** The same producers are registered and the same are active. */
  ghost predicate SameStanding(t: Tally, u: Tally) {
    forall p :: (p in u.producers <==> p in t.producers) && (p in u.producers ==> u.producers[p].active == t.producers[p].active)
  }

  /** At most thirty names in increasing order, all of them registered producers, and active ones for a new vote. */
  predicate Votable(t: Tally, ps: seq<Name>, voting: bool) {
    && |ps| <= 30 && (forall i, j :: 0 <= i < j < |ps| ==> ps[i] < ps[j])
    && forall p :: p in ps ==> p in t.producers && (voting ==> t.producers[p].active)
  }

  lemma {:induction false} IncreasingApart(ps: seq<Name>, i: nat, j: nat)
    requires Increasing(ps) && i < j < |ps|
    ensures ps[i] < ps[j]
    decreases j
  {
    if i < j - 1 {
      IncreasingApart(ps, i, j - 1);
    }
  }

  lemma IncreasingExactly(ps: seq<Name>)
    ensures Increasing(ps) <==> forall i, j :: 0 <= i < j < |ps| ==> ps[i] < ps[j]
  {
    if Increasing(ps) {
      forall i, j | 0 <= i < j < |ps|
        ensures ps[i] < ps[j]
      {
        IncreasingApart(ps, i, j);
      }
    }
  }

  lemma UpdateVotesExactly(t: Tally, w: Curve, name: Name, ps: seq<Name>, voting: bool)
    requires Agrees(t, w)
    ensures UpdateVotes(t, w, name, NO_PROXY, ps, voting).Ok? <==> name in t.voters && Votable(t, ps, voting)
    ensures UpdateVotes(t, w, name, NO_PROXY, ps, voting).Ok? ==>
      var u := UpdateVotes(t, w, name, NO_PROXY, ps, voting).value;
      && OtherVoters(t, u, name) && SameStanding(t, u) && name in u.voters
      && u.voters[name] == t.voters[name].(producers := ps, lastStake := u.voters[name].lastStake,
                                           lastWeight := u.voters[name].lastWeight)
      && u.voters[name].lastStake == if voting && ps == [] then 0 else t.voters[name].staked
  {
    hide Agrees, VoteWeight, Deltas, RealSums.Sum;
    IncreasingExactly(ps);
    if name in t.voters {
      NoProxyUsed(t, w, name);
    }
  }

  /**
   * A vote goes through exactly when it is not through a proxy, the voter has a row and the names can be voted for. It
   * becomes the voter's vote with all of the voter's stake, and no other voter's row changes.
   */
  lemma VoteExactly(t: Tally, w: Curve, name: Name, proxy: Name, ps: seq<Name>, staked: nat)
    requires IsCurve(w) && Current(t, w)
    ensures Vote(t, w, name, proxy, ps, staked).Ok? <==> proxy == 0 && name in t.voters && Votable(t, ps, true)
    ensures Vote(t, w, name, proxy, ps, staked).Ok? ==>
      var u := Vote(t, w, name, proxy, ps, staked).value;
      && Current(u, w) && OtherVoters(t, u, name) && SameStanding(t, u) && name in u.voters
      && u.voters[name].producers == ps && u.voters[name].staked == staked
      && u.voters[name].lastStake == if ps == [] then 0 else staked
  {
    hide Agrees, UpdateVotes, Votable;
    RestakedAgrees(t, w, name, staked);
    VoteAgrees(t, w, name, proxy, ps, staked);
    var restaked := if name in t.voters then t.(voters := t.voters[name := t.voters[name].(staked := staked)]) else t;
    VotableThere(t, restaked, ps, true);
    if proxy == NO_PROXY {
      UpdateVotesExactly(restaked, w, name, ps, true);
    } else {
      ProxyVoteRefused(restaked, w, name, proxy, ps);
    }
  }

  lemma VotableThere(t: Tally, u: Tally, ps: seq<Name>, voting: bool)
    requires u.producers == t.producers
    ensures Votable(u, ps, voting) <==> Votable(t, ps, voting)
  {
  }

  /** A new stake always goes through, keeping the vote even for producers that are no longer active. */
  lemma RestakeExactly(t: Tally, w: Curve, name: Name, staked: nat)
    requires IsCurve(w) && Current(t, w)
    ensures Restake(t, w, name, staked).Ok?
    ensures var u := Restake(t, w, name, staked).value;
      && Current(u, w) && OtherVoters(t, u, name) && SameStanding(t, u) && name in u.voters
      && u.voters[name].staked == staked
      && u.voters[name].producers == if name in t.voters then t.voters[name].producers else []
  {
    hide Agrees, UpdateVotes, Votable;
    RestakedAgrees(t, w, name, staked);
    RestakeAgrees(t, w, name, staked);
    var v := if name in t.voters then t.voters[name].(staked := staked) else NewVoter(staked);
    var restaked := t.(voters := t.voters[name := v]);
    NoProxyUsed(restaked, w, name);
    UpdateVotesExactly(restaked, w, name, v.producers, false);
    VoteKnown(restaked, w, name);
  }

  lemma VoteKnown(t: Tally, w: Curve, name: Name)
    requires Agrees(t, w) && name in t.voters
    ensures Votable(t, t.voters[name].producers, false)
  {
    hide RealSums.Sum, TableSums.Sum, VoteWeight;
    assert VoterSound(t.voters[name], w, t.producers);
    IncreasingExactly(t.voters[name].producers);
  }

  /** Registering makes a producer active, keeps its votes and changes no other. */
  lemma RegisterExactly(t: Tally, p: Name)
    ensures var u := Register(t, p);
      && u == t.(producers := u.producers) && p in u.producers && u.producers[p].active
      && u.producers[p].votes == (if p in t.producers then t.producers[p].votes else 0.0)
      && forall q :: q != p ==> (q in u.producers <==> q in t.producers) && (q in u.producers ==> u.producers[q] == t.producers[q])
  {
  }

  /** Unregistering makes a registered producer inactive, which keeps its votes, and changes no other. */
  lemma UnregisterExactly(t: Tally, p: Name)
    ensures Unregister(t, p).Ok? <==> p in t.producers
    ensures Unregister(t, p).Ok? ==>
      var u := Unregister(t, p).value;
      && u == t.(producers := u.producers) && p in u.producers && !u.producers[p].active
      && u.producers[p].votes == t.producers[p].votes
      && forall q :: q != p ==> (q in u.producers <==> q in t.producers) && (q in u.producers ==> u.producers[q] == t.producers[q])
  {
  }
}
