/**
 * Counting votes per party: the filter-and-count of the mock database, the
 * increment loop of the hosted-store service, and the sums over them.
 */
module Counting {
  import opened Entities

  /** `votes.filter(vote => vote.partyId === partyId).length` */
  function CountFor(votes: seq<Vote>, partyId: string): (n: nat)
    ensures n <= |votes|
    ensures n == 0 <==> forall i :: 0 <= i < |votes| ==> votes[i].partyId != partyId
  {
    WhereEmpty(votes, VoteForParty(partyId));
    |Where(votes, VoteForParty(partyId))|
  }

  /** Appending a vote adds one to its own party's count and nothing to any other. */
  lemma CountForSnoc(votes: seq<Vote>, v: Vote, partyId: string)
    ensures CountFor(votes + [v], partyId) == CountFor(votes, partyId) + (if v.partyId == partyId then 1 else 0)
  {
    WhereAppend(votes, [v], VoteForParty(partyId));
    assert [v][1..] == [];
  }

  /** `counts[key] || 0`: the count stored under a key, 0 when there is none. */
  function CountOrZero(counts: map<string, nat>, key: string): (n: nat)
    ensures key in counts ==> n == counts[key]
    ensures key !in counts ==> n == 0
  {
    if key in counts then counts[key] else 0
  }

  /**
   * `votes.forEach(vote => { counts[vote.party_id] = (counts[vote.party_id] || 0) + 1 })`
   * starting from an empty record.
   */
  function Tally(votes: seq<Vote>): (counts: map<string, nat>)
    ensures forall k :: k in counts ==> 1 <= counts[k] <= |votes|
  {
    if votes == [] then map[]
    else
      var counts := Tally(votes[..|votes| - 1]);
      var key := votes[|votes| - 1].partyId;
      counts[key := CountOrZero(counts, key) + 1]
  }

  /** The tally has a key for exactly the parties that occur in the votes. */
  lemma {:induction false} TallyKeys(votes: seq<Vote>)
    ensures Tally(votes).Keys == set v | v in votes :: v.partyId
  {
    if votes != [] {
      var init := votes[..|votes| - 1];
      var last := votes[|votes| - 1];
      TallyKeys(init);
      assert votes == init + [last];
      assert (set v | v in votes :: v.partyId) == (set v | v in init :: v.partyId) + {last.partyId};
    }
  }

  /** Each tallied value is the number of votes naming that party; an absent key means none. */
  lemma {:induction false} TallyCounts(votes: seq<Vote>)
    ensures forall partyId :: CountOrZero(Tally(votes), partyId) == CountFor(votes, partyId)
  {
    if votes != [] {
      var init := votes[..|votes| - 1];
      var last := votes[|votes| - 1];
      TallyCounts(init);
      assert votes == init + [last];
      forall partyId ensures CountOrZero(Tally(votes), partyId) == CountFor(votes, partyId) {
        CountForSnoc(init, last, partyId);
      }
    }
  }

  predicate Distinct(keys: seq<string>)
  {
    forall i, j :: 0 <= i < j < |keys| ==> keys[i] != keys[j]
  }

  /** The sum of `counts[key] || 0` over a list of keys. */
  function SumAt(counts: map<string, nat>, keys: seq<string>): nat
  {
    if keys == [] then 0 else CountOrZero(counts, keys[0]) + SumAt(counts, keys[1..])
  }

  /** The sum of the per-party counts over a list of party ids. */
  function SumCounts(votes: seq<Vote>, keys: seq<string>): nat
  {
    if keys == [] then 0 else CountFor(votes, keys[0]) + SumCounts(votes, keys[1..])
  }

  function InParties(keys: seq<string>): Vote -> bool { (v: Vote) => v.partyId in keys }

  /** The number of votes naming one of the given parties. */
  function CountCovered(votes: seq<Vote>, keys: seq<string>): nat
  {
    |Where(votes, InParties(keys))|
  }

  /** How often a key occurs in a list of keys. */
  function Occurrences(keys: seq<string>, key: string): nat
  {
    if keys == [] then 0 else (if keys[0] == key then 1 else 0) + Occurrences(keys[1..], key)
  }

  lemma {:induction false} OccurrencesDistinct(keys: seq<string>, key: string)
    requires Distinct(keys)
    ensures Occurrences(keys, key) == if key in keys then 1 else 0
  {
    if keys != [] {
      OccurrencesDistinct(keys[1..], key);
      if keys[0] == key {
        assert key !in keys[1..] by {
          forall i | 0 <= i < |keys[1..]| ensures keys[1..][i] != key {
            assert keys[1..][i] == keys[i + 1];
          }
        }
      }
    }
  }

  lemma {:induction false} SumCountsNoVotes(keys: seq<string>)
    ensures SumCounts([], keys) == 0
  {
    if keys != [] {
      SumCountsNoVotes(keys[1..]);
    }
  }

  lemma {:induction false} SumCountsSnoc(votes: seq<Vote>, v: Vote, keys: seq<string>)
    ensures SumCounts(votes + [v], keys) == SumCounts(votes, keys) + Occurrences(keys, v.partyId)
  {
    if keys != [] {
      CountForSnoc(votes, v, keys[0]);
      SumCountsSnoc(votes, v, keys[1..]);
    }
  }

  /**
   * Summing the per-party counts over a catalog of distinct party ids counts
   * every vote that names a catalogued party exactly once and no other vote.
   */
  lemma {:induction false} SumCountsCovered(votes: seq<Vote>, keys: seq<string>)
    requires Distinct(keys)
    ensures SumCounts(votes, keys) == CountCovered(votes, keys)
  {
    if votes == [] {
      SumCountsNoVotes(keys);
    } else {
      var init := votes[..|votes| - 1];
      var last := votes[|votes| - 1];
      assert votes == init + [last];
      SumCountsCovered(init, keys);
      SumCountsSnoc(init, last, keys);
      OccurrencesDistinct(keys, last.partyId);
      WhereAppend(init, [last], InParties(keys));
      assert [last][1..] == [];
    }
  }

  /** Summing a tally over a key list is summing the per-party counts. */
  lemma {:induction false} SumAtTally(votes: seq<Vote>, keys: seq<string>)
    ensures SumAt(Tally(votes), keys) == SumCounts(votes, keys)
  {
    if keys != [] {
      TallyCounts(votes);
      SumAtTally(votes, keys[1..]);
    }
  }

  /**
   * The tallied values add up to the number of votes (summed over any list
   * that enumerates the tally's keys once each).
   */
  lemma TallyTotal(votes: seq<Vote>, keys: seq<string>)
    requires Distinct(keys)
    requires forall k :: k in keys <==> k in Tally(votes)
    ensures SumAt(Tally(votes), keys) == |votes|
  {
    SumAtTally(votes, keys);
    SumCountsCovered(votes, keys);
    TallyKeys(votes);
    forall i | 0 <= i < |votes| ensures InParties(keys)(votes[i]) {
      assert votes[i].partyId in Tally(votes);
    }
    WhereAll(votes, InParties(keys));
  }
}
