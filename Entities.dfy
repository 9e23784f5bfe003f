/**
 * The canonical records of the voting ledger and the array searches the
 * stores are built from (`find`, `findIndex`, `filter` of JavaScript arrays).
 *
 * The mock database names its fields in camelCase and the hosted store in
 * snake_case; both are the same four records here. Timestamps and election
 * dates are not modelled.
 */
module Entities {

  datatype Option<T> = None | Some(value: T)

  datatype User = User(id: string, name: string, email: string, voterId: string, hasVoted: bool)

  datatype Party = Party(id: string, name: string, logoUrl: string, description: string)

  datatype Vote = Vote(id: string, userId: string, partyId: string)

  datatype Election = Election(id: string, title: string, description: string, isActive: bool)

  // The search predicates the stores use, each defined once so that every
  // lookup by the same key denotes the same predicate.

  function UserWithId(id: string): User -> bool { (u: User) => u.id == id }

  function UserWithVoterId(voterId: string): User -> bool { (u: User) => u.voterId == voterId }

  function UserWithEmail(email: string): User -> bool { (u: User) => u.email == email }

  function PartyWithId(id: string): Party -> bool { (p: Party) => p.id == id }

  function VoteByUser(userId: string): Vote -> bool { (v: Vote) => v.userId == userId }

  function VoteForParty(partyId: string): Vote -> bool { (v: Vote) => v.partyId == partyId }

  function ElectionWithId(id: string): Election -> bool { (e: Election) => e.id == id }

  function IsActiveElection(): Election -> bool { (e: Election) => e.isActive }

  /** `findIndex`: the index of the first element satisfying `p`; None stands for -1. */
  function FindIndex<T>(s: seq<T>, p: T -> bool): (r: Option<nat>)
    ensures r.Some? ==> r.value < |s| && p(s[r.value])
    ensures r.Some? ==> forall j :: 0 <= j < r.value ==> !p(s[j])
    ensures r.None? <==> forall j :: 0 <= j < |s| ==> !p(s[j])
  {
    if s == [] then None
    else if p(s[0]) then Some(0)
    else match FindIndex(s[1..], p)
      case None => None
      case Some(k) => Some(k + 1)
  }

  /** `find`: the first element satisfying `p`; None stands for `undefined`. */
  function Find<T>(s: seq<T>, p: T -> bool): (r: Option<T>)
    ensures r.None? <==> forall j :: 0 <= j < |s| ==> !p(s[j])
    ensures r.Some? ==> exists i :: 0 <= i < |s| && s[i] == r.value && p(s[i]) && forall j :: 0 <= j < i ==> !p(s[j])
  {
    match FindIndex(s, p)
    case None => None
    case Some(i) => Some(s[i])
  }

  /** No two users share an id. */
  predicate DistinctIds(users: seq<User>)
  {
    forall i, j :: 0 <= i < j < |users| ==> users[i].id != users[j].id
  }

  /** `filter`: the elements satisfying `p`, in their stored order. */
  function Where<T>(s: seq<T>, p: T -> bool): (r: seq<T>)
    ensures |r| <= |s|
  {
    if s == [] then [] else (if p(s[0]) then [s[0]] else []) + Where(s[1..], p)
  }

  /** `r` can be obtained from `s` by deleting elements: its elements occur in `s` in the same order. */
  predicate IsSubsequence<T(==)>(r: seq<T>, s: seq<T>)
  {
    if r == [] then true
    else if s == [] then false
    else (r[0] == s[0] && IsSubsequence(r[1..], s[1..])) || IsSubsequence(r, s[1..])
  }

  /** `filter` keeps the stored order. */
  lemma {:induction false} WhereSubsequence<T>(s: seq<T>, p: T -> bool)
    ensures IsSubsequence(Where(s, p), s)
  {
    if s != [] {
      WhereSubsequence(s[1..], p);
      var rest := Where(s[1..], p);
      if p(s[0]) {
        assert Where(s, p) == [s[0]] + rest;
        assert ([s[0]] + rest)[1..] == rest;
      } else {
        assert Where(s, p) == rest;
      }
    }
  }

  /**
   * `filter` keeps every occurrence of a satisfying element and no occurrence
   * of any other: with `WhereSubsequence`, this pins the result down.
   */
  lemma {:induction false} WhereMultiplicity<T>(s: seq<T>, p: T -> bool, x: T)
    ensures multiset(Where(s, p))[x] == if p(x) then multiset(s)[x] else 0
  {
    if s != [] {
      WhereMultiplicity(s[1..], p, x);
      assert s == [s[0]] + s[1..];
      assert multiset(s) == multiset{s[0]} + multiset(s[1..]);
      var head := if p(s[0]) then [s[0]] else [];
      assert multiset(Where(s, p)) == multiset(head) + multiset(Where(s[1..], p));
    }
  }

  /** `filter` keeps every element satisfying the predicate and nothing else. */
  lemma {:induction false} WhereMembers<T>(s: seq<T>, p: T -> bool)
    ensures forall i :: 0 <= i < |Where(s, p)| ==> Where(s, p)[i] in s && p(Where(s, p)[i])
    ensures forall i :: 0 <= i < |s| && p(s[i]) ==> s[i] in Where(s, p)
  {
    if s != [] {
      WhereMembers(s[1..], p);
      var r := Where(s, p);
      var rest := Where(s[1..], p);
      assert r == (if p(s[0]) then [s[0]] else []) + rest;
      forall i | 0 <= i < |r| ensures r[i] in s && p(r[i]) {
        if !p(s[0]) || i > 0 {
          var k := if p(s[0]) then i - 1 else i;
          assert r[i] == rest[k];
          assert rest[k] in s[1..];
        }
      }
      forall i | 0 <= i < |s| && p(s[i]) ensures s[i] in r {
        if i > 0 {
          assert s[i] == s[1..][i - 1];
        }
      }
    }
  }

  /** Filtering a concatenation filters each part and keeps their order. */
  lemma {:induction false} WhereAppend<T>(a: seq<T>, b: seq<T>, p: T -> bool)
    ensures Where(a + b, p) == Where(a, p) + Where(b, p)
  {
    if a == [] {
      assert a + b == b;
    } else {
      assert (a + b)[0] == a[0];
      assert (a + b)[1..] == a[1..] + b;
      WhereAppend(a[1..], b, p);
      var head := if p(a[0]) then [a[0]] else [];
      assert Where(a + b, p) == head + (Where(a[1..], p) + Where(b, p));
      assert head + (Where(a[1..], p) + Where(b, p)) == (head + Where(a[1..], p)) + Where(b, p);
    }
  }

  /** The filtered sequence is empty exactly when `find` fails, and otherwise starts with what `find` returns. */
  lemma {:induction false} WhereStartsWithFind<T>(s: seq<T>, p: T -> bool)
    ensures Where(s, p) == [] <==> Find(s, p).None?
    ensures Where(s, p) != [] ==> Where(s, p)[0] == Find(s, p).value
  {
    if s != [] && !p(s[0]) {
      WhereStartsWithFind(s[1..], p);
    }
  }

  /** Filtering keeps nothing when no element satisfies the predicate. */
  lemma {:induction false} WhereNone<T>(s: seq<T>, p: T -> bool)
    requires forall i :: 0 <= i < |s| ==> !p(s[i])
    ensures Where(s, p) == []
  {
    if s != [] {
      WhereNone(s[1..], p);
    }
  }

  /** Nothing is kept exactly when no element satisfies `p`. */
  lemma WhereEmpty<T>(s: seq<T>, p: T -> bool)
    ensures Where(s, p) == [] <==> forall i :: 0 <= i < |s| ==> !p(s[i])
  {
    WhereMembers(s, p);
    if forall i :: 0 <= i < |s| ==> !p(s[i]) {
      WhereNone(s, p);
    }
  }

  /** Filtering keeps everything exactly when every element satisfies the predicate. */
  lemma {:induction false} WhereAll<T>(s: seq<T>, p: T -> bool)
    requires forall i :: 0 <= i < |s| ==> p(s[i])
    ensures Where(s, p) == s
  {
    if s != [] {
      WhereAll(s[1..], p);
    }
  }

  /**
   * `findIndex(user => user.id === userId)` followed by an in-place update of
   * that element's voted flag; an unknown id leaves the table as it is.
   */
  function SetVoteStatus(users: seq<User>, userId: string, hasVoted: bool): (r: seq<User>)
    ensures |r| == |users|
    ensures forall j :: 0 <= j < |users| ==> r[j].id == users[j].id && r[j].voterId == users[j].voterId
    ensures forall j :: 0 <= j < |users| && r[j] != users[j] ==> r[j] == users[j].(hasVoted := hasVoted)
  {
    match FindIndex(users, UserWithId(userId))
    case None => users
    case Some(i) => users[i := users[i].(hasVoted := hasVoted)]
  }

  /** An unknown id changes no user. */
  lemma SetVoteStatusUnknown(users: seq<User>, userId: string, hasVoted: bool)
    requires forall u :: u in users ==> u.id != userId
    ensures SetVoteStatus(users, userId, hasVoted) == users
  {
    assert FindIndex(users, UserWithId(userId)).None?;
  }

  /**
   * A known id sets the flag of the first user with that id and nothing else:
   * every other user, and every other field of that one, is unchanged.
   */
  lemma SetVoteStatusFrame(users: seq<User>, userId: string, hasVoted: bool, i: nat)
    requires i < |users| && users[i].id == userId
    requires forall j :: 0 <= j < i ==> users[j].id != userId
    ensures SetVoteStatus(users, userId, hasVoted)[i] == users[i].(hasVoted := hasVoted)
    ensures forall j :: 0 <= j < |users| && j != i ==> SetVoteStatus(users, userId, hasVoted)[j] == users[j]
  {
    var k := FindIndex(users, UserWithId(userId));
    assert UserWithId(userId)(users[i]);
    assert k.Some? && k.value == i;
  }

  /** Setting the same flag twice has the effect of setting it once. */
  lemma SetVoteStatusIdempotent(users: seq<User>, userId: string, hasVoted: bool)
    ensures SetVoteStatus(SetVoteStatus(users, userId, hasVoted), userId, hasVoted)
         == SetVoteStatus(users, userId, hasVoted)
  {
    var once := SetVoteStatus(users, userId, hasVoted);
    match FindIndex(users, UserWithId(userId))
    case None =>
    case Some(i) =>
      SetVoteStatusFrame(users, userId, hasVoted, i);
      SetVoteStatusFrame(once, userId, hasVoted, i);
      assert SetVoteStatus(once, userId, hasVoted) == once;
  }

  /** Two sequences that agree on the predicate position by position have the same first match. */
  lemma {:induction false} FindIndexAgree<T>(s: seq<T>, t: seq<T>, p: T -> bool)
    requires |s| == |t|
    requires forall j :: 0 <= j < |s| ==> p(s[j]) == p(t[j])
    ensures FindIndex(s, p) == FindIndex(t, p)
  {
    if s != [] && !p(s[0]) {
      FindIndexAgree(s[1..], t[1..], p);
    }
  }

  /** Updating a flag keeps every user's id, so the first user with an id stays first. */
  lemma SetVoteStatusSameIndex(users: seq<User>, userId: string, hasVoted: bool, id: string)
    ensures forall j :: 0 <= j < |users| ==> SetVoteStatus(users, userId, hasVoted)[j].id == users[j].id
    ensures FindIndex(SetVoteStatus(users, userId, hasVoted), UserWithId(id)) == FindIndex(users, UserWithId(id))
  {
    var r := SetVoteStatus(users, userId, hasVoted);
    assert forall j :: 0 <= j < |users| ==> r[j].id == users[j].id;
    FindIndexAgree(r, users, UserWithId(id));
  }

  lemma SetVoteStatusCons(users: seq<User>, userId: string, hasVoted: bool)
    requires users != []
    ensures SetVoteStatus(users, userId, hasVoted)
         == if users[0].id == userId then [users[0].(hasVoted := hasVoted)] + users[1..]
            else [users[0]] + SetVoteStatus(users[1..], userId, hasVoted)
  {
    var p := UserWithId(userId);
    if users[0].id != userId {
      match FindIndex(users[1..], p)
      case None =>
      case Some(k) =>
        assert FindIndex(users, p) == Some(k + 1);
        assert users[k + 1 := users[k + 1].(hasVoted := hasVoted)]
            == [users[0]] + users[1..][k := users[1..][k].(hasVoted := hasVoted)];
    }
  }

  /**
   * The users with a given id after the update are those before it, with the
   * first of them carrying the new flag.
   */
  lemma {:induction false} WhereSetVoteStatus(users: seq<User>, userId: string, hasVoted: bool)
    ensures var before := Where(users, UserWithId(userId));
      Where(SetVoteStatus(users, userId, hasVoted), UserWithId(userId))
      == if before == [] then [] else [before[0].(hasVoted := hasVoted)] + before[1..]
  {
    var p := UserWithId(userId);
    if users != [] {
      var r := SetVoteStatus(users, userId, hasVoted);
      SetVoteStatusCons(users, userId, hasVoted);
      if users[0].id == userId {
        assert r[1..] == users[1..];
        assert Where(r, p) == [r[0]] + Where(users[1..], p);
        assert Where(users, p) == [users[0]] + Where(users[1..], p);
      } else {
        assert r[1..] == SetVoteStatus(users[1..], userId, hasVoted);
        assert Where(r, p) == Where(r[1..], p);
        assert Where(users, p) == Where(users[1..], p);
        WhereSetVoteStatus(users[1..], userId, hasVoted);
      }
    }
  }
}
