/** Vote tallies kept up to date vote by vote, against a recount of all the votes. */
module Voting {
  import opened Outcomes
  import TableSums
  import RealSums
  import Tables

  type Name = int

  /** The vote weight of one core token when voting for that many producers. */
  type Curve = nat -> real

  ghost predicate IsCurve(w: Curve) {
    forall n: nat :: 0.0 <= w(n)
  }

  datatype Voter = Voter(
    proxy: Name,
    producers: seq<Name>,
    staked: int,
    lastStake: int,
    lastWeight: real,
    proxied: real,
    isProxy: bool
  )

  datatype Producer = Producer(votes: real, active: bool)

  /** The voters and producers tables, total_activated_stake and total_producer_vote_weight. */
  datatype Tally = Tally(voters: map<Name, Voter>, producers: map<Name, Producer>, activated: int, weight: real)

  const NO_PROXY: Name := 0

  function NewVoter(staked: int): Voter {
    Voter(0, [], staked, 0, 0.0, 0.0, false)
  }

  /** inverse_vote_weight. */
  function VoteWeight(w: Curve, staked: int, n: nat): real {
    if n == 0 then 0.0 else w(n) * staked as real
  }

  predicate Increasing(ps: seq<Name>) {
    forall i :: 1 <= i < |ps| ==> ps[i - 1] < ps[i]
  }

  // ---- update_votes

  /** What producer_deltas holds for producer p: the old weight taken back and the new one given. */
  function DeltaOf(v: Voter, ps: seq<Name>, weight: real, p: Name): real {
    (if v.lastStake > 0 && p in v.producers then -v.lastWeight else 0.0) + (if p in ps then weight else 0.0)
  }

  function Deltas(v: Voter, ps: seq<Name>, weight: real): map<Name, real> {
    map p | p in (if v.lastStake > 0 then v.producers else []) + ps :: DeltaOf(v, ps, weight, p)
  }

  /** A producer's votes after a delta, never left below zero. */
  function Clamped(votes: real): real {
    if votes < 0.0 then 0.0 else votes
  }

  function WithDeltas(producers: map<Name, Producer>, deltas: map<Name, real>): map<Name, Producer> {
    map p | p in producers ::
      if p in deltas then producers[p].(votes := Clamped(producers[p].votes + deltas[p])) else producers[p]
  }

  function Delta(p: Name, d: real): real { d }

  /** The stake a vote counts with: taking back all votes counts as retracting the stake. */
  function CountedStake(v: Voter, ps: seq<Name>, voting: bool): int {
    if voting && ps == [] then 0 else v.staked
  }

  ghost function UpdateVotes(t: Tally, w: Curve, name: Name, proxy: Name, ps: seq<Name>, voting: bool): Outcome<Tally> {
    if proxy != NO_PROXY then
      :- Check(ps == []);
      :- Check(name != proxy);
      :- Check(name in t.voters);
      :- Check(!t.voters[name].isProxy);
      :- Check(proxy in t.voters);
      :- Check(!voting || t.voters[proxy].isProxy);
      Broken(LogicError)   // a vote through a proxy, which no reachable state allows
    else
      :- Check(|ps| <= 30 && Increasing(ps));
      :- Check(name in t.voters);
      var v := t.voters[name];
      :- Expected(!v.isProxy && v.proxy == NO_PROXY, LogicError);
      var stake := CountedStake(v, ps, voting);
      var weight := VoteWeight(w, stake, |ps|);
      var deltas := Deltas(v, ps, weight);
      :- Check(forall p :: p in ps ==> p in t.producers && (voting ==> t.producers[p].active));
      var known := map p | p in deltas && p in t.producers :: deltas[p];
      Ok(t.(producers := WithDeltas(t.producers, known), activated := t.activated + stake - v.lastStake,
            weight := t.weight + RealSums.Sum(known, Delta),
            voters := t.voters[name := v.(lastWeight := weight, lastStake := stake, producers := ps)]))
  }

  // ---- the actions

  datatype Action =
      /** voteproducer, after the stake of the voter's REX has been brought up to date */
    | VoteProducer(voter: Name, proxy: Name, producers: seq<Name>, staked: nat)
      /** update_voting_power, which leaves the voter with this stake */
    | ChangeStake(voter: Name, staked: nat)
    | RegProxy(voter: Name, isProxy: bool)
    | RegProducer(producer: Name)
      /** unregprod, rmvproducer or votebpout */
    | Deactivate(producer: Name)

  ghost function Vote(t: Tally, w: Curve, name: Name, proxy: Name, ps: seq<Name>, staked: nat): Outcome<Tally> {
    var restaked := if name in t.voters then t.(voters := t.voters[name := t.voters[name].(staked := staked)]) else t;
    UpdateVotes(restaked, w, name, proxy, ps, true)
  }

  ghost function Restake(t: Tally, w: Curve, name: Name, staked: nat): Outcome<Tally> {
    var v := if name in t.voters then t.voters[name].(staked := staked) else NewVoter(staked);
    var restaked := t.(voters := t.voters[name := v]);
    if v.producers != [] || v.proxy != NO_PROXY then UpdateVotes(restaked, w, name, v.proxy, v.producers, false)
    else Ok(restaked)
  }

  ghost function RegisterProxy(t: Tally, w: Curve, name: Name, isProxy: bool): Outcome<Tally> {
    var allowed := !isProxy;
    :- Check(allowed);
    if name in t.voters then
      :- Check(isProxy != t.voters[name].isProxy);
      var v := t.voters[name].(isProxy := isProxy);
      UpdateVotes(t.(voters := t.voters[name := v]), w, name, v.proxy, v.producers, true)
    else Ok(t.(voters := t.voters[name := NewVoter(0)]))
  }

  function Register(t: Tally, p: Name): Tally {
    t.(producers := t.producers[p := if p in t.producers then t.producers[p].(active := true) else Producer(0.0, true)])
  }

  function Unregister(t: Tally, p: Name): Outcome<Tally> {
    var allowed := p in t.producers;
    :- Check(allowed);
    Ok(t.(producers := t.producers[p := t.producers[p].(active := false)]))
  }

  ghost function Step(t: Tally, w: Curve, a: Action): Outcome<Tally> {
    match a
    case VoteProducer(voter, proxy, ps, staked) => Vote(t, w, voter, proxy, ps, staked)
    case ChangeStake(voter, staked) => Restake(t, w, voter, staked)
    case RegProxy(voter, isProxy) => RegisterProxy(t, w, voter, isProxy)
    case RegProducer(p) => Ok(Register(t, p))
    case Deactivate(p) => Unregister(t, p)
  }

  ghost function After(t: Tally, w: Curve, a: Action): Tally {
    if Step(t, w, a).Ok? then Step(t, w, a).value else t
  }

  ghost function Run(t: Tally, w: Curve, actions: seq<Action>): Tally
    decreases |actions|
  {
    if actions == [] then t else Run(After(t, w, actions[0]), w, actions[1..])
  }

  // ---- the recount

  /** The weight a voter gives to producer p. */
  ghost function Given(p: Name): (Name, Voter) -> real {
    (n: Name, v: Voter) => if p in v.producers then v.lastWeight else 0.0
  }

  function LastStake(n: Name, v: Voter): int { v.lastStake }

  function VotesOf(n: Name, p: Producer): real { p.votes }

  /** All the votes for p, counted from scratch. */
  ghost function Recount(voters: map<Name, Voter>, p: Name): real {
    RealSums.Sum(voters, Given(p))
  }

  /** No proxies, and a last weight that is what the curve gives for the last stake. */
  predicate VoterSound(v: Voter, w: Curve, producers: map<Name, Producer>) {
    && v.proxy == NO_PROXY && !v.isProxy && v.proxied == 0.0
    && 0 <= v.staked && 0 <= v.lastStake && |v.producers| <= 30 && Increasing(v.producers)
    && v.lastWeight == VoteWeight(w, v.lastStake, |v.producers|)
    && (forall p :: p in v.producers ==> p in producers)
  }

  ghost predicate Counted(t: Tally, p: Name) {
    (if p in t.producers then t.producers[p].votes else 0.0) == Recount(t.voters, p)
  }

  /** Every running total agrees with a recount. */
  ghost predicate Agrees(t: Tally, w: Curve) {
    && (forall n :: n in t.voters ==> VoterSound(t.voters[n], w, t.producers))
    && (forall p :: Counted(t, p))
    && t.activated == TableSums.Sum(t.voters, LastStake)
    && t.weight == RealSums.Sum(t.producers, VotesOf)
  }

  /** The stake last counted is the stake the voter has, unless the voter votes for nobody. */
  predicate UpToDate(v: Voter) {
    v.lastStake == if v.producers == [] then 0 else v.staked
  }

  predicate AllUpToDate(t: Tally) {
    forall n :: n in t.voters ==> UpToDate(t.voters[n])
  }

  /** What every state of an election satisfies: the totals agree, and every stake that votes has been counted. */
  ghost predicate Current(t: Tally, w: Curve) {
    Agrees(t, w) && AllUpToDate(t)
  }

  /** What the stake of a voter gives to producer p. */
  ghost function Backing(w: Curve, p: Name): (Name, Voter) -> real {
    (n: Name, v: Voter) => if p in v.producers then w(|v.producers|) * v.staked as real else 0.0
  }

  /** The stake of a voter who votes for somebody. */
  function VotingStake(n: Name, v: Voter): int {
    if v.producers == [] then 0 else v.staked
  }

  /** The totals, counted from the voters' stakes and votes alone. */
  ghost predicate Recounted(t: Tally, w: Curve) {
    && (forall p :: p in t.producers ==> t.producers[p].votes == RealSums.Sum(t.voters, Backing(w, p)))
    && t.activated == TableSums.Sum(t.voters, VotingStake)
    && t.weight == RealSums.Sum(t.producers, VotesOf)
  }

  lemma CurrentIsRecounted(t: Tally, w: Curve)
    requires Current(t, w)
    ensures Recounted(t, w)
  {
    hide RealSums.Sum, TableSums.Sum;
    forall p | p in t.producers
      ensures t.producers[p].votes == RealSums.Sum(t.voters, Backing(w, p))
    {
      assert Counted(t, p);
      BackingIsGiven(t, w, p);
    }
    forall n | n in t.voters
      ensures LastStake(n, t.voters[n]) == VotingStake(n, t.voters[n])
    {
      assert UpToDate(t.voters[n]);
    }
    TableSums.SumSame(t.voters, LastStake, VotingStake);
  }

  lemma BackingIsGiven(t: Tally, w: Curve, p: Name)
    requires Current(t, w)
    ensures Recount(t.voters, p) == RealSums.Sum(t.voters, Backing(w, p))
  {
    hide RealSums.Sum, TableSums.Sum;
    var given, backing := Given(p), Backing(w, p);
    forall n | n in t.voters
      ensures given(n, t.voters[n]) == backing(n, t.voters[n])
    {
      assert VoterSound(t.voters[n], w, t.producers) && UpToDate(t.voters[n]);
    }
    RealSums.SumSame(t.voters, given, backing);
  }

  // ---- one vote

  lemma WeightNonNegative(w: Curve, staked: int, n: nat)
    requires IsCurve(w) && 0 <= staked
    ensures 0.0 <= VoteWeight(w, staked, n)
    ensures staked == 0 ==> VoteWeight(w, staked, n) == 0.0
  {
    if n != 0 {
      assert 0.0 <= w(n) && 0.0 <= staked as real;
    }
  }

  /** A voter that counts for nothing has no weight to take back, so a delta is the change in what the voter gives. */
  lemma DeltaIsChange(v: Voter, w: Curve, producers: map<Name, Producer>, ps: seq<Name>, weight: real, p: Name)
    requires IsCurve(w) && VoterSound(v, w, producers)
    ensures DeltaOf(v, ps, weight, p)
         == (if p in ps then weight else 0.0) - (if p in v.producers then v.lastWeight else 0.0)
    ensures p !in Deltas(v, ps, weight) ==> DeltaOf(v, ps, weight, p) == 0.0
    ensures p in Deltas(v, ps, weight) ==> Deltas(v, ps, weight)[p] == DeltaOf(v, ps, weight, p)
  {
    WeightNonNegative(w, v.lastStake, |v.producers|);
  }

  /** Each voter's share in a recount is part of it. */
  lemma ShareInRecount(t: Tally, w: Curve, name: Name, p: Name)
    requires IsCurve(w) && Agrees(t, w) && name in t.voters
    ensures 0.0 <= (if p in t.voters[name].producers then t.voters[name].lastWeight else 0.0) <= Recount(t.voters, p)
  {
    hide RealSums.Sum, TableSums.Sum, VoteWeight;
    var f := Given(p);
    forall n | n in t.voters
      ensures 0.0 <= f(n, t.voters[n])
    {
      var v := t.voters[n];
      assert VoterSound(v, w, t.producers);
      WeightNonNegative(w, v.lastStake, |v.producers|);
    }
    RealSums.ShareAtMostSum(t.voters, f, name);
  }

  /** Deltas that take no producer below zero move the total weight by their sum. */
  lemma {:induction false} SumWithDeltas(producers: map<Name, Producer>, deltas: map<Name, real>)
    requires deltas.Keys <= producers.Keys
    requires forall p :: p in deltas ==> 0.0 <= producers[p].votes + deltas[p]
    ensures RealSums.Sum(WithDeltas(producers, deltas), VotesOf)
         == RealSums.Sum(producers, VotesOf) + RealSums.Sum(deltas, Delta)
    decreases deltas.Keys
  {
    hide RealSums.Sum;
    if deltas.Keys == {} {
      Tables.SameRows(deltas, map[]);
      assert WithDeltas(producers, deltas) == producers;
      NoDeltas(deltas);
    } else {
      var k := Tables.SomeMember(deltas.Keys);
      var fewer := deltas - {k};
      SumWithDeltas(producers, fewer);
      var row := producers[k].(votes := Clamped(producers[k].votes + deltas[k]));
      assert WithDeltas(producers, deltas) == WithDeltas(producers, fewer)[k := row];
      RealSums.SumWrite(WithDeltas(producers, fewer), VotesOf, k, row);
      RealSums.SumErase(deltas, Delta, k);
    }
  }

  lemma NoDeltas(deltas: map<Name, real>)
    requires deltas == map[]
    ensures RealSums.Sum(deltas, Delta) == 0.0
  {
  }

  /** A delta never takes a producer below zero, so the clamp in update_votes does nothing. */
  lemma ClampIdle(t: Tally, w: Curve, name: Name, ps: seq<Name>, weight: real, p: Name)
    requires IsCurve(w) && Agrees(t, w) && name in t.voters && 0.0 <= weight && p in t.producers
    ensures 0.0 <= t.producers[p].votes + DeltaOf(t.voters[name], ps, weight, p)
  {
    hide RealSums.Sum, TableSums.Sum, VoterSound, DeltaOf;
    assert VoterSound(t.voters[name], w, t.producers);
    DeltaIsChange(t.voters[name], w, t.producers, ps, weight, p);
    ShareInRecount(t, w, name, p);
    assert Counted(t, p);
  }

  /** A voter's new row moves each recount by the delta. */
  lemma RecountMoves(voters: map<Name, Voter>, name: Name, v: Voter, p: Name)
    requires name in voters
    ensures Recount(voters[name := v], p)
         == Recount(voters, p) - (if p in voters[name].producers then voters[name].lastWeight else 0.0)
            + (if p in v.producers then v.lastWeight else 0.0)
  {
    hide RealSums.Sum;
    RealSums.SumWrite(voters, Given(p), name, v);
  }

  /** A vote without a proxy keeps every total in agreement with a recount, and is never stopped by a broken row. */
  lemma UpdateVotesAgrees(t: Tally, w: Curve, name: Name, ps: seq<Name>, voting: bool)
    requires IsCurve(w) && Agrees(t, w)
    ensures !UpdateVotes(t, w, name, NO_PROXY, ps, voting).Broken?
    ensures UpdateVotes(t, w, name, NO_PROXY, ps, voting).Ok? ==>
      Agrees(UpdateVotes(t, w, name, NO_PROXY, ps, voting).value, w)
  {
    hide RealSums.Sum, TableSums.Sum, VoteWeight, DeltaOf, Deltas, WithDeltas;
    var out := UpdateVotes(t, w, name, NO_PROXY, ps, voting);
    if name in t.voters {
      assert VoterSound(t.voters[name], w, t.producers);
      if out.Ok? {
        var v := t.voters[name];
        var stake := CountedStake(v, ps, voting);
        var weight := VoteWeight(w, stake, |ps|);
        WeightNonNegative(w, stake, |ps|);
        var deltas := Deltas(v, ps, weight);
        var known := map p | p in deltas && p in t.producers :: deltas[p];
        VoteTotals(t, w, name, ps, weight, known);
        TableSums.SumWrite(t.voters, LastStake, name, v.(lastWeight := weight, lastStake := stake, producers := ps));
        SameProducers(t.producers, known);
        VotersStaySound(t, w, name, v.(lastWeight := weight, lastStake := stake, producers := ps), out.value.producers,
                        out.value.voters);
        forall p
          ensures Counted(out.value, p)
        {
          VoteCounted(t, w, name, ps, stake, weight, known, p);
        }
      }
    }
  }

  /** A vote, and a re-vote for somebody, counts the stake the voter has. */
  lemma UpdateVotesCounts(t: Tally, w: Curve, name: Name, ps: seq<Name>, voting: bool)
    requires forall n :: n in t.voters && n != name ==> UpToDate(t.voters[n])
    requires voting || ps != []
    ensures var out := UpdateVotes(t, w, name, NO_PROXY, ps, voting);
      out.Ok? ==>
        && AllUpToDate(out.value) && name in t.voters && name in out.value.voters
        && out.value.voters[name].staked == t.voters[name].staked && out.value.voters[name].producers == ps
  {
    hide RealSums.Sum, VoteWeight, Deltas, WithDeltas;
  }

  lemma SameProducers(producers: map<Name, Producer>, deltas: map<Name, real>)
    ensures WithDeltas(producers, deltas).Keys == producers.Keys
  {
  }

  lemma VotersStaySound(t: Tally, w: Curve, name: Name, v: Voter, producers: map<Name, Producer>, voters: map<Name, Voter>)
    requires Agrees(t, w) && producers.Keys == t.producers.Keys && VoterSound(v, w, producers)
    requires voters == t.voters[name := v]
    ensures forall n :: n in voters ==> VoterSound(voters[n], w, producers)
  {
    hide RealSums.Sum, TableSums.Sum, VoteWeight;
  }

  lemma VoteTotals(t: Tally, w: Curve, name: Name, ps: seq<Name>, weight: real, known: map<Name, real>)
    requires IsCurve(w) && Agrees(t, w) && name in t.voters && 0.0 <= weight
    requires known == map p | p in Deltas(t.voters[name], ps, weight) && p in t.producers :: Deltas(t.voters[name], ps, weight)[p]
    ensures RealSums.Sum(WithDeltas(t.producers, known), VotesOf) == t.weight + RealSums.Sum(known, Delta)
  {
    hide RealSums.Sum, TableSums.Sum, VoteWeight, DeltaOf, Deltas, WithDeltas;
    assert VoterSound(t.voters[name], w, t.producers);
    forall p | p in known
      ensures 0.0 <= t.producers[p].votes + known[p]
    {
      DeltaIsChange(t.voters[name], w, t.producers, ps, weight, p);
      ClampIdle(t, w, name, ps, weight, p);
    }
    SumWithDeltas(t.producers, known);
  }

  lemma VoteCounted(t: Tally, w: Curve, name: Name, ps: seq<Name>, stake: int, weight: real, known: map<Name, real>, p: Name)
    requires IsCurve(w) && Agrees(t, w) && name in t.voters && 0.0 <= weight
    requires known == map p | p in Deltas(t.voters[name], ps, weight) && p in t.producers :: Deltas(t.voters[name], ps, weight)[p]
    requires forall q :: q in ps ==> q in t.producers
    ensures var v := t.voters[name].(lastWeight := weight, lastStake := stake, producers := ps);
      Counted(t.(producers := WithDeltas(t.producers, known), voters := t.voters[name := v]), p)
  {
    hide RealSums.Sum, TableSums.Sum, VoteWeight, DeltaOf, Deltas, Recount;
    var v := t.voters[name];
    assert VoterSound(v, w, t.producers);
    DeltaIsChange(v, w, t.producers, ps, weight, p);
    RecountMoves(t.voters, name, v.(lastWeight := weight, lastStake := stake, producers := ps), p);
    assert Counted(t, p);
    if p in t.producers {
      ClampIdle(t, w, name, ps, weight, p);
    }
  }

  // ---- every action, and runs of them

  /** A new stake waits for the next vote update and counts for nothing until then. */
  lemma RestakedAgrees(t: Tally, w: Curve, name: Name, staked: nat)
    requires IsCurve(w) && Agrees(t, w)
    ensures var v := if name in t.voters then t.voters[name].(staked := staked) else NewVoter(staked);
      Agrees(t.(voters := t.voters[name := v]), w)
  {
    hide RealSums.Sum, TableSums.Sum, VoteWeight;
    var v := if name in t.voters then t.voters[name].(staked := staked) else NewVoter(staked);
    NewVoterSound(w, staked, t.producers);
    VotersStaySound(t, w, name, v, t.producers, t.voters[name := v]);
    TableSums.SumWrite(t.voters, LastStake, name, v);
    var restaked := t.(voters := t.voters[name := v]);
    forall p
      ensures Counted(restaked, p)
    {
      assert Counted(t, p);
      RealSums.SumWrite(t.voters, Given(p), name, v);
    }
  }

  lemma NewVoterSound(w: Curve, staked: nat, producers: map<Name, Producer>)
    ensures VoterSound(NewVoter(staked), w, producers)
  {
  }

  /** voteproducer with a proxy always fails: nobody is one. */
  lemma ProxyVoteRefused(t: Tally, w: Curve, name: Name, proxy: Name, ps: seq<Name>)
    requires Agrees(t, w) && proxy != NO_PROXY
    ensures UpdateVotes(t, w, name, proxy, ps, true).Refused?
  {
    hide RealSums.Sum, TableSums.Sum;
    if proxy in t.voters {
      assert VoterSound(t.voters[proxy], w, t.producers);
    }
  }

  lemma VoteAgrees(t: Tally, w: Curve, name: Name, proxy: Name, ps: seq<Name>, staked: nat)
    requires IsCurve(w) && Current(t, w)
    ensures !Vote(t, w, name, proxy, ps, staked).Broken?
    ensures Vote(t, w, name, proxy, ps, staked).Ok? ==>
      var u := Vote(t, w, name, proxy, ps, staked).value;
      Current(u, w) && name in u.voters && u.voters[name].staked == staked && u.voters[name].producers == ps
  {
    hide Agrees, UpdateVotes;
    RestakedAgrees(t, w, name, staked);
    var restaked := if name in t.voters then t.(voters := t.voters[name := t.voters[name].(staked := staked)]) else t;
    if proxy == NO_PROXY {
      UpdateVotesAgrees(restaked, w, name, ps, true);
      UpdateVotesCounts(restaked, w, name, ps, true);
    } else {
      ProxyVoteRefused(restaked, w, name, proxy, ps);
    }
  }

  lemma NoProxyUsed(t: Tally, w: Curve, name: Name)
    requires Agrees(t, w) && name in t.voters
    ensures t.voters[name].proxy == NO_PROXY && !t.voters[name].isProxy
  {
    hide RealSums.Sum, TableSums.Sum;
    assert VoterSound(t.voters[name], w, t.producers);
  }

  /** A new stake is counted at once for a voter who votes, and keeps the vote. */
  lemma RestakeAgrees(t: Tally, w: Curve, name: Name, staked: nat)
    requires IsCurve(w) && Current(t, w)
    ensures !Restake(t, w, name, staked).Broken?
    ensures Restake(t, w, name, staked).Ok? ==>
      var u := Restake(t, w, name, staked).value;
      && Current(u, w) && name in u.voters && u.voters[name].staked == staked
      && u.voters[name].producers == (if name in t.voters then t.voters[name].producers else [])
      && (u.voters[name].producers != [] ==> u.voters[name].lastStake == staked)
  {
    hide Agrees, UpdateVotes;
    RestakedAgrees(t, w, name, staked);
    var v := if name in t.voters then t.voters[name].(staked := staked) else NewVoter(staked);
    var restaked := t.(voters := t.voters[name := v]);
    NoProxyUsed(restaked, w, name);
    if v.producers == [] {
      assert AllUpToDate(restaked);
    } else {
      UpdateVotesAgrees(restaked, w, name, v.producers, false);
      UpdateVotesCounts(restaked, w, name, v.producers, false);
    }
  }

  /** regproxy never makes anyone a proxy and never gets as far as a vote. */
  lemma RegisterProxyAgrees(t: Tally, w: Curve, name: Name, isProxy: bool)
    requires IsCurve(w) && Current(t, w)
    ensures RegisterProxy(t, w, name, isProxy).Ok? <==> !isProxy && name !in t.voters
    ensures !RegisterProxy(t, w, name, isProxy).Broken?
    ensures RegisterProxy(t, w, name, isProxy).Ok? ==> Current(RegisterProxy(t, w, name, isProxy).value, w)
  {
    hide Agrees, UpdateVotes;
    if name in t.voters {
      NoProxyUsed(t, w, name);
    } else {
      RestakedAgrees(t, w, name, 0);
    }
  }

  lemma ProducerWritten(t: Tally, w: Curve, p: Name, row: Producer)
    requires Agrees(t, w) && row.votes == (if p in t.producers then t.producers[p].votes else 0.0)
    ensures Agrees(t.(producers := t.producers[p := row]), w)
  {
    hide RealSums.Sum, TableSums.Sum, VoteWeight;
    RealSums.SumWrite(t.producers, VotesOf, p, row);
    forall n | n in t.voters
      ensures VoterSound(t.voters[n], w, t.producers[p := row])
    {
      assert VoterSound(t.voters[n], w, t.producers);
    }
    var written := t.(producers := t.producers[p := row]);
    forall q
      ensures Counted(written, q)
    {
      assert Counted(t, q);
    }
  }

  lemma StepAgrees(t: Tally, w: Curve, a: Action)
    requires IsCurve(w) && Current(t, w)
    ensures !Step(t, w, a).Broken?
    ensures Step(t, w, a).Ok? ==> Current(Step(t, w, a).value, w)
  {
    hide Agrees, Vote, Restake, RegisterProxy;
    match a
    case VoteProducer(voter, proxy, ps, staked) => VoteAgrees(t, w, voter, proxy, ps, staked);
    case ChangeStake(voter, staked) => RestakeAgrees(t, w, voter, staked);
    case RegProxy(voter, isProxy) => RegisterProxyAgrees(t, w, voter, isProxy);
    case RegProducer(p) =>
      ProducerWritten(t, w, p, if p in t.producers then t.producers[p].(active := true) else Producer(0.0, true));
    case Deactivate(p) =>
      if p in t.producers {
        ProducerWritten(t, w, p, t.producers[p].(active := false));
      }
  }

  lemma {:induction false} RunAgrees(t: Tally, w: Curve, actions: seq<Action>)
    requires IsCurve(w) && Current(t, w)
    ensures Current(Run(t, w, actions), w)
    decreases |actions|
  {
    hide Current, Step;
    if actions == [] {
    } else {
      StepAgrees(t, w, actions[0]);
      RunAgrees(After(t, w, actions[0]), w, actions[1..]);
    }
  }

  /**
   * In every state reached from an empty election the totals are a recount of the voters' stakes: each producer's votes
   * are the sum over the voters voting for it of the curve's value for the number of their votes times their stake, the
   * activated stake is the stake of all who vote, and the total weight the sum of all producers' votes. Nobody is or
   * uses a proxy.
   */
  lemma TalliesAreRecounts(w: Curve, actions: seq<Action>, p: Name, n: Name)
    requires IsCurve(w)
    ensures var t := Run(Tally(map[], map[], 0, 0.0), w, actions);
      && (p in t.producers ==> t.producers[p].votes == RealSums.Sum(t.voters, Backing(w, p)))
      && (p in t.producers ==> t.producers[p].votes == Recount(t.voters, p))
      && t.activated == TableSums.Sum(t.voters, VotingStake) == TableSums.Sum(t.voters, LastStake)
      && t.weight == RealSums.Sum(t.producers, VotesOf)
      && (n in t.voters ==>
            var v := t.voters[n];
            !v.isProxy && v.proxy == NO_PROXY && v.lastStake == VotingStake(n, v)
            && v.lastWeight == VoteWeight(w, v.lastStake, |v.producers|))
  {
    hide RealSums.Sum, TableSums.Sum, VoteWeight, Run;
    EmptyAgrees(w);
    RunAgrees(Tally(map[], map[], 0, 0.0), w, actions);
    var t := Run(Tally(map[], map[], 0, 0.0), w, actions);
    CurrentIsRecounted(t, w);
    assert Counted(t, p);
    if n in t.voters {
      assert VoterSound(t.voters[n], w, t.producers) && UpToDate(t.voters[n]);
    }
  }

  lemma EmptyAgrees(w: Curve)
    ensures Current(Tally(map[], map[], 0, 0.0), w)
  {
    assert forall p :: RealSums.Sum(map[], Given(p)) == 0.0;
  }

  /** What makes recalculate_votes start over. */
  predicate Recalculates(t: Tally) {
    t.weight <= -0.1
  }

  /** In exact arithmetic recalculate_votes never has anything to do. */
  lemma NeverRecalculates(w: Curve, actions: seq<Action>)
    requires IsCurve(w)
    ensures !Recalculates(Run(Tally(map[], map[], 0, 0.0), w, actions))
  {
    hide Run, Agrees;
    EmptyAgrees(w);
    RunAgrees(Tally(map[], map[], 0, 0.0), w, actions);
    WeightAgrees(Run(Tally(map[], map[], 0, 0.0), w, actions), w);
  }

  lemma WeightAgrees(t: Tally, w: Curve)
    requires IsCurve(w) && Agrees(t, w)
    ensures 0.0 <= t.weight
  {
    hide RealSums.Sum, TableSums.Sum, Recount, VoterSound;
    forall p | p in t.producers
      ensures 0.0 <= VotesOf(p, t.producers[p])
    {
      assert Counted(t, p);
      RecountNonNegative(t, w, p);
    }
    RealSums.SumNonNeg(t.producers, VotesOf);
  }

  lemma RecountNonNegative(t: Tally, w: Curve, p: Name)
    requires IsCurve(w) && Agrees(t, w)
    ensures 0.0 <= Recount(t.voters, p)
  {
    hide RealSums.Sum, TableSums.Sum, VoteWeight;
    var f := Given(p);
    forall n | n in t.voters
      ensures 0.0 <= f(n, t.voters[n])
    {
      var v := t.voters[n];
      assert VoterSound(v, w, t.producers);
      WeightNonNegative(w, v.lastStake, |v.producers|);
    }
    RealSums.SumNonNeg(t.voters, f);
  }
}
