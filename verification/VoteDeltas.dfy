/** producer_deltas, the changes in votes update_votes collects before it applies them. */
module VoteDeltas {
  import opened Voting
  import RealSums
  import Tables

  /** One entry of producer_deltas: the change in votes, and whether the new vote is for this producer. */
  datatype Entry = Entry(change: real, isNew: bool)

  /** The entries after the old votes have been taken back. */
  function TakenBack(old_: seq<Name>, weight: real): map<Name, Entry> {
    map p | p in old_ :: Entry(-weight, false)
  }

  /** The entries after the new votes have been added. */
  function Added(entries: map<Name, Entry>, ps: seq<Name>, weight: real): map<Name, Entry> {
    map p | p in entries.Keys + (set q | q in ps) ::
      if p in ps then Entry((if p in entries then entries[p].change else 0.0) + weight, true) else entries[p]
  }

  lemma {:induction false} IncreasingDistinct(ps: seq<Name>, i: nat, j: nat)
    requires Increasing(ps) && i < j < |ps|
    ensures ps[i] < ps[j]
    decreases j - i
  {
    if i + 1 >= j {
    } else {
      IncreasingDistinct(ps, i, j - 1);
    }
  }

  predicate Votable(producers: map<Name, Producer>, p: Name, voting: bool) {
    p in producers && (voting ==> producers[p].active)
  }

  /** The deltas of registered producers, but for those still to be applied. */
  function Known(entries: map<Name, Entry>, rest: set<Name>, producers: map<Name, Producer>): map<Name, real> {
    map p | p in entries && p !in rest && p in producers :: entries[p].change
  }

  lemma NotBefore(ps: seq<Name>, i: nat)
    requires Increasing(ps) && i < |ps|
    ensures ps[i] !in ps[..i] && ps[..i + 1] == ps[..i] + [ps[i]]
  {
    forall j | 0 <= j < i
      ensures ps[j] < ps[i]
    {
      IncreasingDistinct(ps, j, i);
    }
  }

  predicate VotesSorted(voters: map<Name, Voter>) {
    forall n :: n in voters ==> Increasing(voters[n].producers)
  }

  lemma NoneAdded(taken: map<Name, Entry>, weight: real)
    ensures Added(taken, [], weight) == taken
  {
  }

  lemma OneAdded(taken: map<Name, Entry>, ps: seq<Name>, p: Name, weight: real)
    requires p !in ps
    ensures var entries := Added(taken, ps, weight);
      Added(taken, ps + [p], weight) == entries[p := Entry((if p in entries then entries[p].change else 0.0) + weight, true)]
  {
  }

  lemma NothingKnown(entries: map<Name, Entry>, rows: map<Name, Producer>)
    ensures var none := Known(entries, entries.Keys, rows);
      RealSums.Sum(none, Voting.Delta) == 0.0 && WithDeltas(rows, none) == rows
  {
    assert Known(entries, entries.Keys, rows) == map[];
    NoDeltas(Known(entries, entries.Keys, rows));
  }

  /** One more entry applied. */
  lemma OneKnown(rows: map<Name, Producer>, entries: map<Name, Entry>, rest: set<Name>, p: Name)
    requires p in rest && p in entries
    ensures var before, after := Known(entries, rest, rows), Known(entries, rest - {p}, rows);
      && (p !in rows ==> after == before)
      && (p in rows ==>
            && WithDeltas(rows, before)[p] == rows[p]
            && WithDeltas(rows, after)
               == WithDeltas(rows, before)[p := rows[p].(votes := Clamped(rows[p].votes + entries[p].change))]
            && RealSums.Sum(after, Voting.Delta) == RealSums.Sum(before, Voting.Delta) + entries[p].change)
      && WithDeltas(rows, before).Keys == rows.Keys
  {
    hide RealSums.Sum;
    if p in rows {
      assert Known(entries, rest - {p}, rows) == Known(entries, rest, rows)[p := entries[p].change];
      RealSums.SumWrite(Known(entries, rest, rows), Voting.Delta, p, entries[p].change);
    } else {
      assert Known(entries, rest - {p}, rows) == Known(entries, rest, rows);
    }
  }

  /** The entries are the deltas of the specification. */
  lemma EntriesAre(v: Voter, ps: seq<Name>, weight: real, entries: map<Name, Entry>, producers: map<Name, Producer>, voting: bool)
    requires entries == Added(if v.lastStake > 0 then TakenBack(v.producers, v.lastWeight) else map[], ps, weight)
    ensures Known(entries, {}, producers) == map p | p in Deltas(v, ps, weight) && p in producers :: Deltas(v, ps, weight)[p]
    ensures (forall p :: p in entries && entries[p].isNew ==> Votable(producers, p, voting))
       <==> (forall p :: p in ps ==> p in producers && (voting ==> producers[p].active))
  {
    hide Votable;
    forall p
      ensures p in entries <==> p in Deltas(v, ps, weight)
      ensures p in entries ==> entries[p].change == Deltas(v, ps, weight)[p] && (entries[p].isNew <==> p in ps)
    {
    }
    NewOnes(ps, entries, producers, voting);
  }

  lemma NewOnes(ps: seq<Name>, entries: map<Name, Entry>, producers: map<Name, Producer>, voting: bool)
    requires forall p :: p in entries ==> (entries[p].isNew <==> p in ps)
    requires forall p :: p in ps ==> p in entries
    ensures (forall p :: p in entries && entries[p].isNew ==> Votable(producers, p, voting))
       <==> (forall p :: p in ps ==> p in producers && (voting ==> producers[p].active))
  {
    assert forall p :: Votable(producers, p, voting) <==> p in producers && (voting ==> producers[p].active);
  }

  method PickOne(names: set<Name>) returns (p: Name)
    requires names != {}
    ensures p in names
  {
    ghost var some := Tables.SomeMember(names);
    p :| p in names;
  }

  /** In every reachable state the stored votes are sorted, as update_votes needs. */
  lemma AgreementSorts(t: Tally, w: Curve)
    requires Agrees(t, w)
    ensures VotesSorted(t.voters)
  {
    forall n | n in t.voters
      ensures Increasing(t.voters[n].producers)
    {
      assert VoterSound(t.voters[n], w, t.producers);
    }
  }
}
