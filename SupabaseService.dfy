/**
 * The service of `src/lib/supabase-service.ts` over a hosted table store.
 *
 * The store is abstracted as its four tables (`Store`). Whether a call to it
 * reports an error is a boolean parameter of the operation making the call,
 * and the id the store gives an inserted vote is a parameter too. The
 * module-level `TEST_USERS` array, which the service searches first and
 * updates in place, sits beside the store in `Backend`. Queries follow the
 * store's row semantics: `.single()` yields the row only when exactly one row
 * matches; `.maybeSingle()` yields null for none and an error for several,
 * which the service also turns into null.
 */
module SupabaseService {
  import opened Entities
  import opened Counting
  import JsString

  datatype Store = Store(users: seq<User>, parties: seq<Party>, votes: seq<Vote>, elections: seq<Election>)

  datatype Backend = Backend(testUsers: seq<User>, store: Store)

  /** The hard-coded test users, as the module initialises them. */
  const TestUsers: seq<User> := [
    User("12345678-1234-1234-1234-123456789012", "John Doe", "john@example.com", "VOT12345", false),
    User("22345678-1234-1234-1234-123456789012", "Jane Smith", "jane@example.com", "VOT67890", false),
    User("32345678-1234-1234-1234-123456789012", "Bob Johnson", "bob@example.com", "VOT54321", false),
    User("42345678-1234-1234-1234-123456789012", "Alice Williams", "alice@example.com", "VOT09876", false)
  ]

  /** The result of `.single()` over the matching rows. */
  function Single<T>(rows: seq<T>): (r: Option<T>)
    ensures r.Some? <==> |rows| == 1
    ensures r.Some? ==> rows == [r.value]
  {
    if |rows| == 1 then Some(rows[0]) else None
  }

  /** `getUserById`: the one store row with that id; null on an error, on no row or on several. */
  function UserById(store: Store, id: string, failure: bool): (r: Option<User>)
    ensures r.Some? <==> !failure && |Where(store.users, UserWithId(id))| == 1
    ensures r.Some? ==> r.value in store.users && r.value.id == id
  {
    if failure then None
    else
      WhereMembers(store.users, UserWithId(id));
      Single(Where(store.users, UserWithId(id)))
  }

  /**
   * `getUserByVoterId`: null for an empty id; else the first test user whose
   * voter id equals the trimmed input, without asking the store; else the
   * one store row with that voter id, null on none, several or an error.
   */
  function FindVoter(b: Backend, voterId: string, failure: bool): (r: Option<User>)
    ensures voterId == "" ==> r.None?
    ensures var key := JsString.Trim(voterId);
      voterId != "" && (exists i :: 0 <= i < |b.testUsers| && b.testUsers[i].voterId == key) ==>
        && r.Some?
        && exists i :: 0 <= i < |b.testUsers| && b.testUsers[i] == r.value && r.value.voterId == key
             && forall j :: 0 <= j < i ==> b.testUsers[j].voterId != key
    ensures var key := JsString.Trim(voterId);
      voterId != "" && (forall u :: u in b.testUsers ==> u.voterId != key) ==>
        && (r.Some? <==> !failure && |Where(b.store.users, UserWithVoterId(key))| == 1)
        && (r.Some? ==> r.value in b.store.users && r.value.voterId == key)
  {
    if voterId == "" then None
    else
      var key := JsString.Trim(voterId);
      match Find(b.testUsers, UserWithVoterId(key))
      case Some(u) => Some(u)
      case None =>
        if failure then None
        else
          WhereMembers(b.store.users, UserWithVoterId(key));
          Single(Where(b.store.users, UserWithVoterId(key)))
  }

  /** A test-user match does not depend on the store at all, nor on whether it would fail. */
  lemma FindVoterTestUserFirst(b: Backend, voterId: string, failure: bool, other: Store, otherFailure: bool)
    requires voterId != ""
    requires exists u :: u in b.testUsers && u.voterId == JsString.Trim(voterId)
    ensures FindVoter(b, voterId, failure) == FindVoter(b.(store := other), voterId, otherFailure)
  {
    var key := JsString.Trim(voterId);
    var u :| u in b.testUsers && u.voterId == key;
    var i :| 0 <= i < |b.testUsers| && b.testUsers[i] == u;
    assert UserWithVoterId(key)(b.testUsers[i]);
  }

  /**
   * The user record `updateUserVoteStatus` writes for an id: the first test
   * user with that id, otherwise the one store row with it.
   */
  function UserRecord(b: Backend, userId: string, failure: bool): (r: Option<User>)
    ensures r.Some? ==> r.value.id == userId
  {
    match Find(b.testUsers, UserWithId(userId))
    case Some(u) => Some(u)
    case None => UserById(b.store, userId, failure)
  }

  /** Whether `updateUserVoteStatus` finds the id among the test users. */
  predicate IsTestUserId(b: Backend, userId: string)
  {
    FindIndex(b.testUsers, UserWithId(userId)).Some?
  }

  /**
   * `updateUserVoteStatus`: a test user's flag is set in place whatever the
   * store would do; otherwise the store updates the one row with that id, and
   * an error, no row or several rows leave everything unchanged and give null.
   */
  function StatusUpdate(b: Backend, userId: string, hasVoted: bool, failure: bool): (res: (Backend, Option<User>))
    ensures res.0.store.parties == b.store.parties && res.0.store.votes == b.store.votes
    ensures res.0.store.elections == b.store.elections
    ensures IsTestUserId(b, userId) ==> res.1.Some? && res.0.store == b.store
    ensures !IsTestUserId(b, userId) ==>
      && res.0.testUsers == b.testUsers
      && (res.1.Some? <==> !failure && |Where(b.store.users, UserWithId(userId))| == 1)
    ensures IsTestUserId(b, userId) ==> res.0.testUsers == SetVoteStatus(b.testUsers, userId, hasVoted)
    ensures !IsTestUserId(b, userId) && res.1.Some? ==>
      res.0.store.users == SetVoteStatus(b.store.users, userId, hasVoted)
    ensures res.1.None? ==> res.0 == b
    ensures res.1.Some? ==> res.1.value.hasVoted == hasVoted && UserRecord(res.0, userId, false) == res.1
  {
    match FindIndex(b.testUsers, UserWithId(userId))
    case Some(i) =>
      var t := SetVoteStatus(b.testUsers, userId, hasVoted);
      SetVoteStatusFrame(b.testUsers, userId, hasVoted, i);
      SetVoteStatusSameIndex(b.testUsers, userId, hasVoted, userId);
      (b.(testUsers := t), Some(t[i]))
    case None =>
      var rows := Where(b.store.users, UserWithId(userId));
      if failure || |rows| != 1 then (b, None)
      else
        var users := SetVoteStatus(b.store.users, userId, hasVoted);
        WhereSetVoteStatus(b.store.users, userId, hasVoted);
        (b.(store := b.store.(users := users)), Some(rows[0].(hasVoted := hasVoted)))
  }

  /** Setting a flag a second time, with the same store outcome, changes nothing more. */
  lemma StatusUpdateIdempotent(b: Backend, userId: string, hasVoted: bool, failure: bool)
    ensures var once := StatusUpdate(b, userId, hasVoted, failure).0;
      StatusUpdate(once, userId, hasVoted, failure).0 == once
  {
    var once := StatusUpdate(b, userId, hasVoted, failure).0;
    match FindIndex(b.testUsers, UserWithId(userId))
    case Some(i) =>
      SetVoteStatusSameIndex(b.testUsers, userId, hasVoted, userId);
      SetVoteStatusIdempotent(b.testUsers, userId, hasVoted);
    case None =>
      if !failure && |Where(b.store.users, UserWithId(userId))| == 1 {
        WhereSetVoteStatus(b.store.users, userId, hasVoted);
        SetVoteStatusIdempotent(b.store.users, userId, hasVoted);
      }
  }

  /**
   * A test-user update changes only that entry's flag: every other test
   * user and every other field stays as it was.
   */
  lemma StatusUpdateTestUserFrame(b: Backend, userId: string, hasVoted: bool, failure: bool, i: nat)
    requires i < |b.testUsers| && b.testUsers[i].id == userId
    requires forall j :: 0 <= j < i ==> b.testUsers[j].id != userId
    ensures var after := StatusUpdate(b, userId, hasVoted, failure);
      && after.0.store == b.store
      && after.1 == Some(b.testUsers[i].(hasVoted := hasVoted))
      && after.0.testUsers[i] == b.testUsers[i].(hasVoted := hasVoted)
      && forall j :: 0 <= j < |b.testUsers| && j != i ==> after.0.testUsers[j] == b.testUsers[j]
  {
    SetVoteStatusFrame(b.testUsers, userId, hasVoted, i);
    assert UserWithId(userId)(b.testUsers[i]);
  }

  /**
   * `createVote`: an insert error gives null and touches nothing; otherwise
   * the vote is appended, the voter's flag is set through `StatusUpdate`
   * (whose own outcome is ignored), and the inserted vote is returned.
   */
  function VoteInsert(b: Backend, userId: string, partyId: string, newId: string,
                      insertFailure: bool, updateFailure: bool): (res: (Backend, Option<Vote>))
    ensures insertFailure ==> res == (b, None)
    ensures !insertFailure ==>
      && res.1 == Some(Vote(newId, userId, partyId))
      && res.0.store.votes == b.store.votes + [res.1.value]
    ensures res.0.store.parties == b.store.parties && res.0.store.elections == b.store.elections
    ensures !insertFailure && !updateFailure && UserRecord(b, userId, false).Some? ==>
      UserRecord(res.0, userId, false).Some? && UserRecord(res.0, userId, false).value.hasVoted
    ensures !insertFailure && updateFailure && !IsTestUserId(b, userId) ==>
      res.0.testUsers == b.testUsers && res.0.store.users == b.store.users
    ensures !insertFailure && IsTestUserId(b, userId) ==>
      res.0.store.users == b.store.users && res.0.testUsers == SetVoteStatus(b.testUsers, userId, true)
    ensures !insertFailure && !IsTestUserId(b, userId) ==>
      && res.0.testUsers == b.testUsers
      && res.0.store.users == if !updateFailure && |Where(b.store.users, UserWithId(userId))| == 1
                              then SetVoteStatus(b.store.users, userId, true)
                              else b.store.users
  {
    if insertFailure then (b, None)
    else
      var vote := Vote(newId, userId, partyId);
      var inserted := b.(store := b.store.(votes := b.store.votes + [vote]));
      (StatusUpdate(inserted, userId, true, updateFailure).0, Some(vote))
  }

  /** `getParties`: the catalog in store order, empty on an error. */
  function Parties(store: Store, failure: bool): (r: seq<Party>)
    ensures failure ==> r == []
    ensures !failure ==> r == store.parties
  {
    if failure then [] else store.parties
  }

  /** `getPartyById`: the one party with that id; null on an error, on no row or on several. */
  function PartyById(store: Store, id: string, failure: bool): (r: Option<Party>)
    ensures r.Some? <==> !failure && |Where(store.parties, PartyWithId(id))| == 1
    ensures r.Some? ==> r.value in store.parties && r.value.id == id
  {
    if failure then None
    else
      WhereMembers(store.parties, PartyWithId(id));
      Single(Where(store.parties, PartyWithId(id)))
  }

  /** `getVotesByUserId`: that user's votes in store order; empty on an error. */
  function VotesByUser(store: Store, userId: string, failure: bool): (r: seq<Vote>)
    ensures failure ==> r == []
    ensures forall i :: 0 <= i < |r| ==> r[i] in store.votes && r[i].userId == userId
    ensures !failure ==> forall v :: v in store.votes && v.userId == userId ==> v in r
    ensures !failure ==> IsSubsequence(r, store.votes)
    ensures !failure ==> forall w :: multiset(r)[w] == if w.userId == userId then multiset(store.votes)[w] else 0
  {
    if failure then []
    else
      WhereSubsequence(store.votes, VoteByUser(userId));
      forall w ensures multiset(Where(store.votes, VoteByUser(userId)))[w]
                       == if w.userId == userId then multiset(store.votes)[w] else 0 {
        WhereMultiplicity(store.votes, VoteByUser(userId), w);
      }
      WhereMembers(store.votes, VoteByUser(userId));
      Where(store.votes, VoteByUser(userId))
  }

  /** `getActiveElection`: the one active election; null when there is none, several, or an error. */
  function ActiveElection(store: Store, failure: bool): (r: Option<Election>)
    ensures r.Some? <==> !failure && |Where(store.elections, IsActiveElection())| == 1
    ensures r.Some? ==> r.value in store.elections && r.value.isActive
  {
    if failure then None
    else
      WhereMembers(store.elections, IsActiveElection());
      Single(Where(store.elections, IsActiveElection()))
  }

  /** The service's own state: the test users it mutates, and the store it talks to. */
  class Service {
    var testUsers: seq<User>
    var store: Store

    function Snapshot(): Backend
      reads this
    {
      Backend(testUsers, store)
    }

    constructor (store: Store)
      ensures testUsers == TestUsers && this.store == store
    {
      testUsers := TestUsers;
      this.store := store;
    }

    method UpdateUserVoteStatus(userId: string, hasVoted: bool, failure: bool) returns (r: Option<User>)
      modifies this
      ensures (Snapshot(), r) == StatusUpdate(old(Snapshot()), userId, hasVoted, failure)
    {
      match FindIndex(testUsers, UserWithId(userId))
      case Some(i) =>
        testUsers := testUsers[i := testUsers[i].(hasVoted := hasVoted)];
        r := Some(testUsers[i]);
      case None =>
        if failure {
          r := None;
        } else {
          var rows := Where(store.users, UserWithId(userId));
          if |rows| == 1 {
            store := store.(users := SetVoteStatus(store.users, userId, hasVoted));
            r := Some(rows[0].(hasVoted := hasVoted));
          } else {
            r := None;
          }
        }
    }

    method CreateVote(userId: string, partyId: string, newId: string, insertFailure: bool, updateFailure: bool)
      returns (r: Option<Vote>)
      modifies this
      ensures (Snapshot(), r) == VoteInsert(old(Snapshot()), userId, partyId, newId, insertFailure, updateFailure)
    {
      if insertFailure {
        return None;
      }
      var vote := Vote(newId, userId, partyId);
      store := store.(votes := store.votes + [vote]);
      var _ := UpdateUserVoteStatus(userId, true, updateFailure);
      r := Some(vote);
    }

    /**
     * Counts the votes per party by incrementing a record in one pass over
     * the votes; an error gives the empty record.
     */
    method GetVoteCountByParty(failure: bool) returns (counts: map<string, nat>)
      ensures failure ==> counts == map[]
      ensures !failure ==> counts == Tally(store.votes)
      ensures !failure ==> counts.Keys == set v | v in store.votes :: v.partyId
      ensures forall k :: k in counts ==> counts[k] == CountFor(store.votes, k)
    {
      if failure {
        return map[];
      }
      counts := map[];
      var votes := store.votes;
      var i := 0;
      while i < |votes|
        invariant i <= |votes|
        invariant counts == Tally(votes[..i])
      {
        var key := votes[i].partyId;
        counts := counts[key := (if key in counts then counts[key] else 0) + 1];
        assert votes[..i + 1][..i] == votes[..i];
        i := i + 1;
      }
      assert votes[..i] == votes;
      TallyKeys(votes);
      TallyCounts(votes);
    }
  }
}
