/**
 * The voting workflow and the results aggregator of `src/lib/vote-service.ts`,
 * built on the hosted-store service.
 */
module VoteService {
  import opened Entities
  import opened Counting
  import opened SupabaseService

  // ---------------------------------------------------------------------
  // Casting a vote
  // ---------------------------------------------------------------------

  /**
   * `castVote` as written: the voter is looked up with `getUserById`, which
   * asks the store only; a missing voter or a set flag gives null and changes
   * nothing; otherwise the result is exactly what `createVote` gives.
   */
  function CastVoteSpec(b: Backend, userId: string, partyId: string, newId: string,
                        lookupFailure: bool, insertFailure: bool, updateFailure: bool): (res: (Backend, Option<Vote>))
    ensures UserById(b.store, userId, lookupFailure).None? ==> res == (b, None)
    ensures UserById(b.store, userId, lookupFailure).Some? && UserById(b.store, userId, lookupFailure).value.hasVoted
      ==> res == (b, None)
    ensures UserById(b.store, userId, lookupFailure).Some? && !UserById(b.store, userId, lookupFailure).value.hasVoted
      ==> res == VoteInsert(b, userId, partyId, newId, insertFailure, updateFailure)
    ensures res.1.None? ==> res.0 == b
    ensures res.1.Some? ==>
      && res.1.value == Vote(newId, userId, partyId)
      && res.0.store.votes == b.store.votes + [res.1.value]
    ensures res.1.Some? && !updateFailure ==>
      UserRecord(res.0, userId, false).Some? && UserRecord(res.0, userId, false).value.hasVoted
  {
    match UserById(b.store, userId, lookupFailure)
    case None => (b, None)
    case Some(user) =>
      if user.hasVoted then (b, None)
      else
        UserRecordFromStore(b, userId);
        VoteInsert(b, userId, partyId, newId, insertFailure, updateFailure)
  }

  /** A voter the store knows has a record that the flag update writes. */
  lemma UserRecordFromStore(b: Backend, userId: string)
    requires |Where(b.store.users, UserWithId(userId))| == 1
    ensures UserRecord(b, userId, false).Some?
  {
  }

  /**
   * `castVote` as evidently intended: the voter is looked up in the same
   * record that `updateUserVoteStatus` writes, test users first, so the flag
   * the check reads is the flag the vote sets.
   */
  function CastVoteIntended(b: Backend, userId: string, partyId: string, newId: string,
                            lookupFailure: bool, insertFailure: bool, updateFailure: bool): (res: (Backend, Option<Vote>))
    ensures UserRecord(b, userId, lookupFailure).None? ==> res == (b, None)
    ensures UserRecord(b, userId, lookupFailure).Some? && UserRecord(b, userId, lookupFailure).value.hasVoted
      ==> res == (b, None)
    ensures UserRecord(b, userId, lookupFailure).Some? && !UserRecord(b, userId, lookupFailure).value.hasVoted
      ==> res == VoteInsert(b, userId, partyId, newId, insertFailure, updateFailure)
    ensures res.1.None? ==> res.0 == b
    ensures res.1.Some? ==>
      && res.1.value == Vote(newId, userId, partyId)
      && res.0.store.votes == b.store.votes + [res.1.value]
    ensures res.1.Some? && !updateFailure ==>
      UserRecord(res.0, userId, false).Some? && UserRecord(res.0, userId, false).value.hasVoted
  {
    match UserRecord(b, userId, lookupFailure)
    case None => (b, None)
    case Some(user) =>
      if user.hasVoted then (b, None)
      else
        UserRecordIgnoresFailure(b, userId, lookupFailure);
        VoteInsert(b, userId, partyId, newId, insertFailure, updateFailure)
  }

  /** A record found while the store may fail is the record found when it does not. */
  lemma UserRecordIgnoresFailure(b: Backend, userId: string, failure: bool)
    requires UserRecord(b, userId, failure).Some?
    ensures UserRecord(b, userId, failure) == UserRecord(b, userId, false)
  {
  }

  /**
   * As written, a test user the store does not hold can never vote: the
   * eligibility check asks the store only, whatever the store's outcomes.
   */
  lemma TestUserRejected(b: Backend, userId: string, partyId: string, newId: string,
                         lookupFailure: bool, insertFailure: bool, updateFailure: bool)
    requires forall u :: u in b.store.users ==> u.id != userId
    ensures CastVoteSpec(b, userId, partyId, newId, lookupFailure, insertFailure, updateFailure) == (b, None)
  {
    forall j | 0 <= j < |b.store.users| ensures !UserWithId(userId)(b.store.users[j]) {
      assert b.store.users[j] in b.store.users;
    }
    WhereNone(b.store.users, UserWithId(userId));
  }

  /**
   * A concrete scenario: with the test users and no user rows in the store, voter
   * VOT12345 logs in and has not voted, yet casting a vote as written gives
   * null, while the intended workflow records the vote.
   */
  lemma LoggedInTestUserCannotVote(parties: seq<Party>, votes: seq<Vote>, elections: seq<Election>,
                                   partyId: string, newId: string)
    ensures var b := Backend(TestUsers, Store([], parties, votes, elections));
      && FindVoter(b, "VOT12345", false) == Some(TestUsers[0])
      && !TestUsers[0].hasVoted
      && CastVoteSpec(b, TestUsers[0].id, partyId, newId, false, false, false) == (b, None)
      && CastVoteIntended(b, TestUsers[0].id, partyId, newId, false, false, false).1.Some?
  {
    var b := Backend(TestUsers, Store([], parties, votes, elections));
    var s := "VOT12345";
    assert JsString.LeadingSpace(s) == 0 && s[0..] == s;
    assert JsString.TrailingSpace(s) == 0;
    assert JsString.Trim(s) == s;
    assert UserWithVoterId(s)(TestUsers[0]);
    assert UserWithId(TestUsers[0].id)(TestUsers[0]);
    TestUserRejected(b, TestUsers[0].id, partyId, newId, false, false, false);
  }

  /**
   * As written, a voter whose id is both a test user's and a store row's can
   * vote twice: the check reads the store row, the flag update writes the
   * test user, so the store row stays unflagged.
   */
  lemma AsWrittenSecondVote(b: Backend, userId: string, u: User,
                            partyId1: string, newId1: string, partyId2: string, newId2: string)
    requires IsTestUserId(b, userId)
    requires Where(b.store.users, UserWithId(userId)) == [u] && !u.hasVoted
    ensures var first := CastVoteSpec(b, userId, partyId1, newId1, false, false, false);
      var second := CastVoteSpec(first.0, userId, partyId2, newId2, false, false, false);
      && first.1.Some? && second.1.Some?
      && second.0.store.votes == b.store.votes + [Vote(newId1, userId, partyId1), Vote(newId2, userId, partyId2)]
  {
    FirstVoteKeepsStoreRow(b, userId, u, partyId1, newId1);
    var first := CastVoteSpec(b, userId, partyId1, newId1, false, false, false);
    assert UserById(first.0.store, userId, false) == Some(u);
  }

  /** A test user's vote, as written, leaves the store's user rows as they were. */
  lemma FirstVoteKeepsStoreRow(b: Backend, userId: string, u: User, partyId: string, newId: string)
    requires IsTestUserId(b, userId)
    requires Where(b.store.users, UserWithId(userId)) == [u] && !u.hasVoted
    ensures var first := CastVoteSpec(b, userId, partyId, newId, false, false, false);
      && first.1 == Some(Vote(newId, userId, partyId))
      && first.0.store.users == b.store.users
      && first.0.store.votes == b.store.votes + [Vote(newId, userId, partyId)]
  {
    assert UserById(b.store, userId, false) == Some(u);
  }

  /** The users with a given id, when ids are unique and the user is stored, are that user alone. */
  lemma {:induction false} WhereUniqueId(users: seq<User>, u: User)
    requires u in users
    requires DistinctIds(users)
    ensures Where(users, UserWithId(u.id)) == [u]
  {
    if users[0] == u {
      assert forall i :: 0 <= i < |users[1..]| ==> users[1..][i].id != u.id by {
        forall i | 0 <= i < |users[1..]| ensures users[1..][i].id != u.id {
          assert users[1..][i] == users[i + 1];
        }
      }
      WhereNone(users[1..], UserWithId(u.id));
    } else {
      assert users[0].id != u.id by {
        var k :| 0 <= k < |users| && users[k] == u;
        assert k != 0;
      }
      WhereUniqueId(users[1..], u);
    }
  }

  /** Every user, test user or store row, has an id of its own. */
  predicate UniqueIds(b: Backend)
  {
    DistinctIds(b.testUsers + b.store.users)
  }

  /** With unique ids, a test user's record is that test user. */
  lemma TestVoterRecord(b: Backend, i: nat)
    requires UniqueIds(b) && i < |b.testUsers|
    ensures UserRecord(b, b.testUsers[i].id, false) == Some(b.testUsers[i])
  {
    var all := b.testUsers + b.store.users;
    var id := b.testUsers[i].id;
    assert UserWithId(id)(b.testUsers[i]);
    forall j | 0 <= j < |b.testUsers| && j != i ensures !UserWithId(id)(b.testUsers[j]) {
      assert all[j] == b.testUsers[j] && all[i] == b.testUsers[i];
    }
    assert FindIndex(b.testUsers, UserWithId(id)) == Some(i);
  }

  /** With unique ids, a stored user's record is that row. */
  lemma StoreVoterRecord(b: Backend, u: User)
    requires UniqueIds(b) && u in b.store.users
    ensures UserRecord(b, u.id, false) == Some(u)
  {
    var all := b.testUsers + b.store.users;
    var n := |b.testUsers|;
    var s :| 0 <= s < |b.store.users| && b.store.users[s] == u;
    forall i, j | 0 <= i < j < |b.store.users| ensures b.store.users[i].id != b.store.users[j].id {
      assert all[n + i] == b.store.users[i] && all[n + j] == b.store.users[j];
    }
    WhereUniqueId(b.store.users, u);
    forall i | 0 <= i < n ensures !UserWithId(u.id)(b.testUsers[i]) {
      assert all[i] == b.testUsers[i] && all[n + s] == u;
    }
    assert Find(b.testUsers, UserWithId(u.id)).None?;
  }

  /**
   * Intended: a voter who logs in and has not voted can vote when the store
   * does not fail.
   */
  lemma IntendedLoggedInVoterCanVote(b: Backend, voterId: string, u: User, partyId: string, newId: string)
    requires UniqueIds(b)
    requires FindVoter(b, voterId, false) == Some(u) && !u.hasVoted
    ensures CastVoteIntended(b, u.id, partyId, newId, false, false, false).1.Some?
  {
    var key := JsString.Trim(voterId);
    if exists i :: 0 <= i < |b.testUsers| && b.testUsers[i].voterId == key {
      var i :| 0 <= i < |b.testUsers| && b.testUsers[i] == u;
      TestVoterRecord(b, i);
    } else {
      StoreVoterRecord(b, u);
    }
  }

  /**
   * Intended: once a vote is recorded and the flag update went through, every
   * further attempt by the same voter is rejected and changes nothing,
   * whatever the store does.
   */
  lemma IntendedNoSecondVote(b: Backend, userId: string, partyId: string, newId: string,
                             lookupFailure: bool, insertFailure: bool,
                             partyId2: string, newId2: string,
                             lookupFailure2: bool, insertFailure2: bool, updateFailure2: bool)
    requires CastVoteIntended(b, userId, partyId, newId, lookupFailure, insertFailure, false).1.Some?
    ensures var after := CastVoteIntended(b, userId, partyId, newId, lookupFailure, insertFailure, false).0;
      CastVoteIntended(after, userId, partyId2, newId2, lookupFailure2, insertFailure2, updateFailure2) == (after, None)
  {
    var after := CastVoteIntended(b, userId, partyId, newId, lookupFailure, insertFailure, false).0;
    if UserRecord(after, userId, lookupFailure2).Some? {
      UserRecordIgnoresFailure(after, userId, lookupFailure2);
    }
  }

  /**
   * `castVote`: looks the voter up, rejects a missing voter and a voter whose
   * flag is set, and otherwise creates the vote and returns what that gave.
   */
  method CastVote(svc: Service, userId: string, partyId: string, newId: string,
                  lookupFailure: bool, insertFailure: bool, updateFailure: bool) returns (r: Option<Vote>)
    modifies svc
    ensures (svc.Snapshot(), r) == CastVoteSpec(old(svc.Snapshot()), userId, partyId, newId,
                                                 lookupFailure, insertFailure, updateFailure)
  {
    var user := UserById(svc.store, userId, lookupFailure);
    if user.None? {
      return None;
    }
    if user.value.hasVoted {
      return None;
    }
    r := svc.CreateVote(userId, partyId, newId, insertFailure, updateFailure);
  }

  // ---------------------------------------------------------------------
  // Results
  // ---------------------------------------------------------------------

  datatype Row = Row(party: Party, count: nat)

  /** `parties.map(party => ({ party, count: counts[party.id] || 0 }))` */
  function Join(counts: map<string, nat>, parties: seq<Party>): (rows: seq<Row>)
    ensures |rows| == |parties|
  {
    if parties == [] then []
    else [Row(parties[0], CountOrZero(counts, parties[0].id))] + Join(counts, parties[1..])
  }

  function CountIs(c: nat): Row -> bool { (row: Row) => row.count == c }

  predicate SortedDesc(rows: seq<Row>)
  {
    forall i, j :: 0 <= i < j < |rows| ==> rows[i].count >= rows[j].count
  }

  /** Places a row after every row with a larger count and before the rest. */
  function Insert(x: Row, rows: seq<Row>): (r: seq<Row>)
    ensures |r| == |rows| + 1
    ensures r[0] == x || (rows != [] && r[0] == rows[0])
  {
    if rows == [] || rows[0].count <= x.count then [x] + rows
    else [rows[0]] + Insert(x, rows[1..])
  }

  /** Inserting adds exactly the one row. */
  lemma {:induction false} InsertPermutes(x: Row, rows: seq<Row>)
    ensures multiset(Insert(x, rows)) == multiset(rows) + multiset{x}
  {
    if rows != [] && rows[0].count > x.count {
      InsertPermutes(x, rows[1..]);
      assert rows == [rows[0]] + rows[1..];
      assert multiset(rows) == multiset{rows[0]} + multiset(rows[1..]);
      assert multiset(Insert(x, rows)) == multiset{rows[0]} + multiset(Insert(x, rows[1..]));
    }
  }

  /** A row that counts at least as much as the head of a sorted sequence can go in front of it. */
  lemma SortedCons(h: Row, rows: seq<Row>)
    requires SortedDesc(rows)
    requires rows == [] || h.count >= rows[0].count
    ensures SortedDesc([h] + rows)
  {
    var r := [h] + rows;
    forall i, j | 0 <= i < j < |r| ensures r[i].count >= r[j].count {
      assert r[j] == rows[j - 1];
      if i > 0 {
        assert r[i] == rows[i - 1];
      }
    }
  }

  /** Inserting into a sorted sequence keeps it sorted. */
  lemma {:induction false} InsertSorted(x: Row, rows: seq<Row>)
    requires SortedDesc(rows)
    ensures SortedDesc(Insert(x, rows))
  {
    if rows == [] || rows[0].count <= x.count {
      SortedCons(x, rows);
    } else {
      assert SortedDesc(rows[1..]);
      InsertSorted(x, rows[1..]);
      SortedCons(rows[0], Insert(x, rows[1..]));
    }
  }

  /**
   * `.sort((a, b) => b.count - a.count)`: a stable sort by non-increasing
   * count, written as an insertion sort. The array sort of JavaScript is
   * stable, and `StableArrangementUnique` shows that a stable sort has only
   * one possible outcome, so the algorithm chosen here does not matter.
   */
  function SortByCount(rows: seq<Row>): (r: seq<Row>)
    ensures SortedDesc(r)
    ensures multiset(r) == multiset(rows)
    ensures |r| == |rows|
  {
    if rows == [] then []
    else
      var rest := SortByCount(rows[1..]);
      InsertSorted(rows[0], rest);
      InsertPermutes(rows[0], rest);
      assert rows == [rows[0]] + rows[1..];
      Insert(rows[0], rest)
  }

  /** Inserting a row puts it in front of the rows with its count and does not reorder any others. */
  lemma {:induction false} InsertWithCount(x: Row, rows: seq<Row>, c: nat)
    ensures Where(Insert(x, rows), CountIs(c))
         == (if x.count == c then [x] else []) + Where(rows, CountIs(c))
  {
    var r := Insert(x, rows);
    if rows == [] || rows[0].count <= x.count {
      WhereInFront(x, rows, c);
    } else {
      var tail := Insert(x, rows[1..]);
      assert r == [rows[0]] + tail;
      InsertWithCount(x, rows[1..], c);
      WhereHead(r, c);
      assert r[1..] == tail;
      WhereHead(rows, c);
    }
  }

  lemma WhereInFront(x: Row, rows: seq<Row>, c: nat)
    ensures Where([x] + rows, CountIs(c)) == (if x.count == c then [x] else []) + Where(rows, CountIs(c))
  {
    WhereHead([x] + rows, c);
    assert ([x] + rows)[1..] == rows;
  }

  /** The sort is stable: rows with equal counts keep their relative order. */
  lemma {:induction false} SortStable(rows: seq<Row>, c: nat)
    ensures Where(SortByCount(rows), CountIs(c)) == Where(rows, CountIs(c))
  {
    if rows != [] {
      SortStable(rows[1..], c);
      InsertWithCount(rows[0], SortByCount(rows[1..]), c);
    }
  }

  /** Sorting rows that are already in order leaves them as they are. */
  lemma {:induction false} SortSortedIsIdentity(rows: seq<Row>)
    requires SortedDesc(rows)
    ensures SortByCount(rows) == rows
  {
    if rows != [] {
      SortSortedIsIdentity(rows[1..]);
    }
  }

  lemma WhereHead(rows: seq<Row>, c: nat)
    requires rows != []
    ensures rows[0].count == c ==> Where(rows, CountIs(c)) == [rows[0]] + Where(rows[1..], CountIs(c))
    ensures rows[0].count != c ==> Where(rows, CountIs(c)) == Where(rows[1..], CountIs(c))
  {
    if rows[0].count != c {
      assert [] + Where(rows[1..], CountIs(c)) == Where(rows[1..], CountIs(c));
    }
  }

  lemma MemberOfCount(x: Row, rows: seq<Row>, c: nat)
    requires x in Where(rows, CountIs(c))
    ensures x in rows && x.count == c
  {
    var w := Where(rows, CountIs(c));
    var k :| 0 <= k < |w| && w[k] == x;
  }

  /** In sequences sorted by count that list each count's rows alike, the first counts agree. */
  lemma HeadCountsAgree(a: seq<Row>, b: seq<Row>)
    requires a != [] && SortedDesc(b)
    requires Where(a, CountIs(a[0].count)) == Where(b, CountIs(a[0].count))
    ensures b != [] && a[0].count <= b[0].count
  {
    WhereHead(a, a[0].count);
    MemberOfCount(a[0], b, a[0].count);
    var k :| 0 <= k < |b| && b[k] == a[0];
  }

  /** Sequences with the same first row that list a count's rows alike still do so without it. */
  lemma TailsAgree(a: seq<Row>, b: seq<Row>, c: nat)
    requires a != [] && b != [] && a[0] == b[0]
    requires Where(a, CountIs(c)) == Where(b, CountIs(c))
    ensures Where(a[1..], CountIs(c)) == Where(b[1..], CountIs(c))
  {
    var ta, tb := Where(a[1..], CountIs(c)), Where(b[1..], CountIs(c));
    WhereHead(a, c);
    WhereHead(b, c);
    if a[0].count == c {
      assert [a[0]] + ta == [a[0]] + tb;
      assert ta == ([a[0]] + ta)[1..];
      assert tb == ([a[0]] + tb)[1..];
    }
  }

  /**
   * Two sequences sorted by non-increasing count that list the rows of each
   * count in the same order are equal: a stable sort has one outcome.
   */
  lemma {:induction false} StableArrangementUnique(a: seq<Row>, b: seq<Row>)
    requires SortedDesc(a) && SortedDesc(b)
    requires forall c :: Where(a, CountIs(c)) == Where(b, CountIs(c))
    ensures a == b
  {
    if a != [] {
      HeadCountsAgree(a, b);
      HeadCountsAgree(b, a);
      var c0 := a[0].count;
      WhereHead(a, c0);
      WhereHead(b, c0);
      assert a[0] == Where(a, CountIs(c0))[0] == b[0];
      forall c ensures Where(a[1..], CountIs(c)) == Where(b[1..], CountIs(c)) {
        TailsAgree(a, b, c);
      }
      StableArrangementUnique(a[1..], b[1..]);
      assert a == [a[0]] + a[1..] && b == [b[0]] + b[1..];
    } else if b != [] {
      HeadCountsAgree(b, a);
    }
  }

  /** `getResults` once the tally and the catalog are fetched. */
  function Results(counts: map<string, nat>, parties: seq<Party>): (rows: seq<Row>)
    ensures |rows| == |parties|
  {
    SortByCount(Join(counts, parties))
  }

  lemma {:induction false} JoinRows(counts: map<string, nat>, parties: seq<Party>)
    ensures |Join(counts, parties)| == |parties|
    ensures forall i :: 0 <= i < |parties| ==>
      Join(counts, parties)[i] == Row(parties[i], CountOrZero(counts, parties[i].id))
  {
    if parties != [] {
      JoinRows(counts, parties[1..]);
    }
  }

  lemma MultiplicityCons<T>(x: T, s: seq<T>, y: T)
    ensures multiset([x] + s)[y] == (if x == y then 1 else 0) + multiset(s)[y]
  {
    assert multiset([x] + s) == multiset{x} + multiset(s);
  }

  lemma {:induction false} JoinMultiplicity(counts: map<string, nat>, parties: seq<Party>, p: Party)
    ensures multiset(Join(counts, parties))[Row(p, CountOrZero(counts, p.id))] == multiset(parties)[p]
  {
    if parties != [] {
      JoinMultiplicity(counts, parties[1..], p);
      var row := Row(p, CountOrZero(counts, p.id));
      var head := Row(parties[0], CountOrZero(counts, parties[0].id));
      assert parties == [parties[0]] + parties[1..];
      MultiplicityCons(parties[0], parties[1..], p);
      MultiplicityCons(head, Join(counts, parties[1..]), row);
      assert (head == row) == (parties[0] == p);
    }
  }

  /**
   * The results list every catalogued party as often as the catalog does
   * (once, for a catalog without repeats), each with its tallied count or 0.
   */
  lemma ResultsCoverCatalog(counts: map<string, nat>, parties: seq<Party>)
    ensures |Results(counts, parties)| == |parties|
    ensures forall i :: 0 <= i < |Results(counts, parties)| ==>
      var row := Results(counts, parties)[i];
      row.party in parties && row.count == CountOrZero(counts, row.party.id)
    ensures forall p: Party :: multiset(Results(counts, parties))[Row(p, CountOrZero(counts, p.id))] == multiset(parties)[p]
  {
    var joined := Join(counts, parties);
    var r := Results(counts, parties);
    JoinRows(counts, parties);
    assert |r| == |multiset(r)| == |multiset(joined)| == |joined|;
    forall i | 0 <= i < |r|
      ensures r[i].party in parties && r[i].count == CountOrZero(counts, r[i].party.id)
    {
      assert r[i] in multiset(r);
      assert r[i] in joined;
    }
    forall p: Party ensures multiset(r)[Row(p, CountOrZero(counts, p.id))] == multiset(parties)[p] {
      JoinMultiplicity(counts, parties, p);
    }
  }

  /**
   * The results run by non-increasing count and parties with equal counts
   * keep their catalog order; no other arrangement has both properties.
   */
  lemma ResultsOrder(counts: map<string, nat>, parties: seq<Party>, other: seq<Row>)
    ensures SortedDesc(Results(counts, parties))
    ensures forall c :: Where(Results(counts, parties), CountIs(c)) == Where(Join(counts, parties), CountIs(c))
    ensures SortedDesc(other) && (forall c :: Where(other, CountIs(c)) == Where(Join(counts, parties), CountIs(c)))
      ==> other == Results(counts, parties)
  {
    forall c ensures Where(Results(counts, parties), CountIs(c)) == Where(Join(counts, parties), CountIs(c)) {
      SortStable(Join(counts, parties), c);
    }
    if SortedDesc(other) && (forall c :: Where(other, CountIs(c)) == Where(Join(counts, parties), CountIs(c))) {
      StableArrangementUnique(other, Results(counts, parties));
    }
  }

  /** With no votes counted every party shows 0, in catalog order. */
  lemma ResultsNoVotes(parties: seq<Party>)
    ensures Results(map[], parties) == Join(map[], parties)
    ensures forall i :: 0 <= i < |parties| ==> Results(map[], parties)[i] == Row(parties[i], 0)
  {
    JoinRows(map[], parties);
    SortSortedIsIdentity(Join(map[], parties));
  }

  function SumRows(rows: seq<Row>): nat
  {
    if rows == [] then 0 else rows[0].count + SumRows(rows[1..])
  }

  function PartyIds(parties: seq<Party>): (ids: seq<string>)
    ensures |ids| == |parties| && forall i :: 0 <= i < |parties| ==> ids[i] == parties[i].id
  {
    if parties == [] then [] else [parties[0].id] + PartyIds(parties[1..])
  }

  lemma {:induction false} SumRowsInsert(x: Row, rows: seq<Row>)
    ensures SumRows(Insert(x, rows)) == x.count + SumRows(rows)
  {
    if rows != [] && rows[0].count > x.count {
      SumRowsInsert(x, rows[1..]);
      assert Insert(x, rows)[1..] == Insert(x, rows[1..]);
    }
  }

  lemma {:induction false} SumRowsSort(rows: seq<Row>)
    ensures SumRows(SortByCount(rows)) == SumRows(rows)
  {
    if rows != [] {
      SumRowsSort(rows[1..]);
      SumRowsInsert(rows[0], SortByCount(rows[1..]));
    }
  }

  lemma {:induction false} SumRowsJoin(counts: map<string, nat>, parties: seq<Party>)
    ensures SumRows(Join(counts, parties)) == SumAt(counts, PartyIds(parties))
  {
    if parties != [] {
      SumRowsJoin(counts, parties[1..]);
      assert PartyIds(parties)[1..] == PartyIds(parties[1..]);
    }
  }

  /**
   * Over a tally of the votes and a catalog without repeated ids, the counts
   * shown add up to the number of votes that name a catalogued party, and so
   * to the number of votes when every vote names one.
   */
  lemma ResultsTotal(votes: seq<Vote>, parties: seq<Party>)
    requires Distinct(PartyIds(parties))
    ensures SumRows(Results(Tally(votes), parties)) == CountCovered(votes, PartyIds(parties))
    ensures (forall v :: v in votes ==> v.partyId in PartyIds(parties)) ==>
      SumRows(Results(Tally(votes), parties)) == |votes|
  {
    var ids := PartyIds(parties);
    SumRowsSort(Join(Tally(votes), parties));
    SumRowsJoin(Tally(votes), parties);
    SumAtTally(votes, ids);
    SumCountsCovered(votes, ids);
    if forall v :: v in votes ==> v.partyId in ids {
      forall i | 0 <= i < |votes| ensures InParties(ids)(votes[i]) {
        assert votes[i] in votes;
      }
      WhereAll(votes, InParties(ids));
    }
  }

  /**
   * `getResults`: counts the votes (an empty record on an error), fetches the
   * catalog (empty on an error), joins them and sorts by count.
   */
  method GetResults(svc: Service, countFailure: bool, partyFailure: bool) returns (rows: seq<Row>)
    ensures var counts := if countFailure then map[] else Tally(svc.store.votes);
      var parties := Parties(svc.store, partyFailure);
      && SortedDesc(rows)
      && (forall c :: Where(rows, CountIs(c)) == Where(Join(counts, parties), CountIs(c)))
      && |rows| == |parties|
      && (forall i :: 0 <= i < |rows| ==> rows[i].party in parties && rows[i].count == CountOrZero(counts, rows[i].party.id))
  {
    var counts := svc.GetVoteCountByParty(countFailure);
    var parties := Parties(svc.store, partyFailure);
    rows := Results(counts, parties);
    ResultsOrder(counts, parties, rows);
    ResultsCoverCatalog(counts, parties);
  }

  // ---------------------------------------------------------------------
  // A voter's own vote
  // ---------------------------------------------------------------------

  datatype Receipt = Receipt(vote: Vote, party: Party)

  /**
   * `getUserVote`: the first of the voter's votes paired with its party;
   * null when the voter has no vote, when the votes cannot be read, or when
   * the party lookup gives nothing.
   */
  function UserVote(store: Store, userId: string, votesFailure: bool, partyFailure: bool): (r: Option<Receipt>)
    ensures votesFailure ==> r.None?
    ensures (forall v :: v in store.votes ==> v.userId != userId) ==> r.None?
    ensures r.Some? ==>
      && (exists i :: 0 <= i < |store.votes| && store.votes[i] == r.value.vote
            && forall j :: 0 <= j < i ==> store.votes[j].userId != userId)
      && r.value.vote.userId == userId
      && r.value.party in store.parties && r.value.party.id == r.value.vote.partyId
    ensures !votesFailure && Find(store.votes, VoteByUser(userId)).Some? ==>
      (r.Some? <==> !partyFailure
                    && |Where(store.parties, PartyWithId(Find(store.votes, VoteByUser(userId)).value.partyId))| == 1)
  {
    var votes := VotesByUser(store, userId, votesFailure);
    if votes == [] then None
    else
      assert votes == Where(store.votes, VoteByUser(userId));
      WhereStartsWithFind(store.votes, VoteByUser(userId));
      var k := FindIndex(store.votes, VoteByUser(userId)).value;
      assert store.votes[k] == votes[0];
      match PartyById(store, votes[0].partyId, partyFailure)
      case None => None
      case Some(p) => Some(Receipt(votes[0], p))
  }
}
