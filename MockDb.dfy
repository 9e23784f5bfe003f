/**
 * The in-memory mock database of `src/lib/db.ts`: four module-level arrays
 * (users, parties, votes, elections) with lookups, an in-place update of a
 * user's voted flag, an append of a vote and a per-party count.
 */
module MockDb {
  import opened Entities
  import opened Counting
  import opened Decimal

  const SeedParties: seq<Party> := [
    Party("party-1", "Democratic Party", "/democratic-party.svg",
          "Focused on social equality and progressive policies."),
    Party("party-2", "Republican Party", "/republican-party.svg",
          "Focused on traditional values and economic freedom."),
    Party("party-3", "Green Party", "/green-party.svg",
          "Focused on environmental protection and social justice."),
    Party("party-4", "Libertarian Party", "/libertarian-party.svg",
          "Focused on individual liberty and limited government.")
  ]

  const SeedUsers: seq<User> := [
    User("user-1", "John Doe", "john@example.com", "VOT12345", false),
    User("user-2", "Jane Smith", "jane@example.com", "VOT67890", true)
  ]

  const SeedVotes: seq<Vote> := [Vote("vote-1", "user-2", "party-1")]

  const SeedElections: seq<Election> := [
    Election("election-1", "Presidential Election 2024",
             "Vote for the next president of the United States", true),
    Election("election-2", "Midterm Elections 2022",
             "Vote for your state representatives", false)
  ]

  /** The i-th stored vote (from 0) is called `vote-<i+1>`: what `createVote` keeps. */
  ghost predicate SequentialIds(votes: seq<Vote>)
  {
    forall i :: 0 <= i < |votes| ==> votes[i].id == VoteId(i + 1)
  }

  /** While the ids are sequential, no two stored votes share an id. */
  lemma SequentialIdsDistinct(votes: seq<Vote>)
    requires SequentialIds(votes)
    ensures forall i, j :: 0 <= i < j < |votes| ==> votes[i].id != votes[j].id
  {
    forall i, j | 0 <= i < j < |votes| ensures votes[i].id != votes[j].id {
      if votes[i].id == votes[j].id {
        VoteIdInjective(i + 1, j + 1);
      }
    }
  }

  /**
   * Appending a vote extends the votes of its own voter by that vote, at the
   * end, and leaves every other voter's votes as they were.
   */
  lemma VotesByUserAfterAppend(votes: seq<Vote>, v: Vote, userId: string)
    ensures Where(votes + [v], VoteByUser(userId))
         == Where(votes, VoteByUser(userId)) + (if v.userId == userId then [v] else [])
  {
    WhereAppend(votes, [v], VoteByUser(userId));
    assert [v][1..] == [];
  }

  class MockDatabase {
    var users: seq<User>
    var parties: seq<Party>
    var votes: seq<Vote>
    var elections: seq<Election>

    ghost predicate Valid()
      reads this
    {
      SequentialIds(votes)
    }

    /** The module-level arrays with the data they are initialised with. */
    constructor ()
      ensures Valid()
      ensures users == SeedUsers && parties == SeedParties
      ensures votes == SeedVotes && elections == SeedElections
    {
      users := SeedUsers;
      parties := SeedParties;
      votes := SeedVotes;
      elections := SeedElections;
      assert NatToString(1) == "1";
    }

    // The getters `[...users]` and the like: a sequence is a value, so what
    // they return is a copy that later updates do not reach.

    function GetUsers(): (r: seq<User>)
      reads this
      ensures r == users
    {
      users
    }

    function GetParties(): (r: seq<Party>)
      reads this
      ensures r == parties
    {
      parties
    }

    function GetVotes(): (r: seq<Vote>)
      reads this
      ensures r == votes
    {
      votes
    }

    function GetElections(): (r: seq<Election>)
      reads this
      ensures r == elections
    {
      elections
    }

    /** `users.find(user => user.voterId === voterId)`: exact, case-sensitive, untrimmed. */
    function GetUserByVoterId(voterId: string): (r: Option<User>)
      reads this
      ensures r.None? <==> forall u :: u in users ==> u.voterId != voterId
      ensures r.Some? ==> exists i :: 0 <= i < |users| && users[i] == r.value && r.value.voterId == voterId
                                   && forall j :: 0 <= j < i ==> users[j].voterId != voterId
    {
      Find(users, UserWithVoterId(voterId))
    }

    function GetUserById(id: string): (r: Option<User>)
      reads this
      ensures r.None? <==> forall u :: u in users ==> u.id != id
      ensures r.Some? ==> exists i :: 0 <= i < |users| && users[i] == r.value && r.value.id == id
                                   && forall j :: 0 <= j < i ==> users[j].id != id
    {
      Find(users, UserWithId(id))
    }

    function GetUserByEmail(email: string): (r: Option<User>)
      reads this
      ensures r.None? <==> forall u :: u in users ==> u.email != email
      ensures r.Some? ==> exists i :: 0 <= i < |users| && users[i] == r.value && r.value.email == email
                                   && forall j :: 0 <= j < i ==> users[j].email != email
    {
      Find(users, UserWithEmail(email))
    }

    function GetPartyById(id: string): (r: Option<Party>)
      reads this
      ensures r.None? <==> forall p :: p in parties ==> p.id != id
      ensures r.Some? ==> exists i :: 0 <= i < |parties| && parties[i] == r.value && r.value.id == id
                                   && forall j :: 0 <= j < i ==> parties[j].id != id
    {
      Find(parties, PartyWithId(id))
    }

    function GetElectionById(id: string): (r: Option<Election>)
      reads this
      ensures r.None? <==> forall e :: e in elections ==> e.id != id
      ensures r.Some? ==> exists i :: 0 <= i < |elections| && elections[i] == r.value && r.value.id == id
                                   && forall j :: 0 <= j < i ==> elections[j].id != id
    {
      Find(elections, ElectionWithId(id))
    }

    /** `elections.find(election => election.isActive)` */
    function GetActiveElection(): (r: Option<Election>)
      reads this
      ensures r.None? <==> forall e :: e in elections ==> !e.isActive
      ensures r.Some? ==> exists i :: 0 <= i < |elections| && elections[i] == r.value && r.value.isActive
                                   && forall j :: 0 <= j < i ==> !elections[j].isActive
    {
      Find(elections, IsActiveElection())
    }

    /** `votes.filter(vote => vote.userId === userId)` */
    function GetVotesByUserId(userId: string): (r: seq<Vote>)
      reads this
      ensures forall i :: 0 <= i < |r| ==> r[i] in votes && r[i].userId == userId
      ensures forall v :: v in votes && v.userId == userId ==> v in r
      ensures IsSubsequence(r, votes)
      ensures forall w :: multiset(r)[w] == if w.userId == userId then multiset(votes)[w] else 0
    {
      WhereSubsequence(votes, VoteByUser(userId));
      forall w ensures multiset(Where(votes, VoteByUser(userId)))[w]
                       == if w.userId == userId then multiset(votes)[w] else 0 {
        WhereMultiplicity(votes, VoteByUser(userId), w);
      }
      WhereMembers(votes, VoteByUser(userId));
      Where(votes, VoteByUser(userId))
    }

    /**
     * Sets the voted flag of the first user with the given id in place and
     * returns that user; an unknown id changes nothing and returns null.
     */
    method UpdateUserVoteStatus(userId: string, hasVoted: bool) returns (r: Option<User>)
      modifies this`users
      ensures users == SetVoteStatus(old(users), userId, hasVoted)
      ensures r.None? <==> forall u :: u in old(users) ==> u.id != userId
      ensures r.Some? ==>
                FindIndex(old(users), UserWithId(userId)).Some?
                && r.value == old(users)[FindIndex(old(users), UserWithId(userId)).value].(hasVoted := hasVoted)
                && r.value == users[FindIndex(old(users), UserWithId(userId)).value]
    {
      match FindIndex(users, UserWithId(userId))
      case None =>
        r := None;
      case Some(i) =>
        users := users[i := users[i].(hasVoted := hasVoted)];
        r := Some(users[i]);
    }

    /**
     * Appends `vote-<n+1>` for n stored votes, then sets the voter's flag;
     * the vote is appended even when no user has that id.
     */
    method CreateVote(userId: string, partyId: string) returns (v: Vote)
      requires Valid()
      modifies this`votes, this`users
      ensures Valid()
      ensures v == Vote(VoteId(|old(votes)| + 1), userId, partyId)
      ensures votes == old(votes) + [v]
      ensures users == SetVoteStatus(old(users), userId, true)
    {
      v := Vote(VoteId(|votes| + 1), userId, partyId);
      votes := votes + [v];
      match FindIndex(users, UserWithId(userId))
      case None =>
      case Some(i) =>
        users := users[i := users[i].(hasVoted := true)];
    }

    /**
     * One key per catalogued party, holding the number of votes that name it;
     * votes for a party outside the catalog are not counted anywhere.
     */
    method GetVoteCountByParty() returns (counts: map<string, nat>)
      ensures counts.Keys == set p | p in parties :: p.id
      ensures forall k :: k in counts ==> counts[k] == CountFor(votes, k)
    {
      counts := map[];
      var i := 0;
      while i < |parties|
        invariant i <= |parties|
        invariant counts.Keys == set p | p in parties[..i] :: p.id
        invariant forall k :: k in counts ==> counts[k] == CountFor(votes, k)
      {
        var id := parties[i].id;
        counts := counts[id := |Where(votes, VoteForParty(id))|];
        assert parties[..i + 1] == parties[..i] + [parties[i]];
        i := i + 1;
      }
      assert parties[..i] == parties;
    }
  }
}
