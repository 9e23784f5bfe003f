# voterdashboard voting ledger in Dafny

This project models the voting ledger of the voterdashboard web application
and the two operations built on top of it. There are three layers, each
modelled in the form the TypeScript takes:

- **The mock database** (`src/lib/db.ts`) is the class `MockDb.MockDatabase`.
  It has four sequence fields: users, parties, votes and elections. It offers
  `find`/`filter` lookups and an in-place update of a voter's `hasVoted`
  flag. `createVote` appends a vote named `vote-<n+1>` and then flags the
  voter. A loop fills one count per catalogued party.
- **The hosted-store service** (`src/lib/supabase-service.ts`):
  - The remote tables are the value `SupabaseService.Store`. Each remote
    call that can fail takes a `failure` flag, and the insert takes the id
    the store assigns.
  - The hard-coded `TEST_USERS` table sits next to the store in
    `SupabaseService.Backend`. `getUserByVoterId` and `updateUserVoteStatus`
    search it first, and `updateUserVoteStatus` updates it in place.
  - The store's query semantics are written out. `.single()` gives a row
    only when exactly one row matches. `.maybeSingle()` gives null for no
    row and an error for several. An update through `.single()` that
    matches no row or several rows fails and changes nothing.
  - The state-changing calls are methods of the class
    `SupabaseService.Service`, each proved equal to a pure specification
    function (`StatusUpdate`, `VoteInsert`).
- **The voting workflow** (`src/lib/vote-service.ts`) lives in module
  `VoteService`:
  - `castVote` is a method proved against `CastVoteSpec`;
  - `getResults` is a left join of the tally onto the party catalog, then a
    stable sort by descending count;
  - `getUserVote` is a lookup chain.

Shared pieces:
- `Entities`: one canonical user, party, vote and election shape, plus
  JavaScript's `find`, `findIndex` and `filter`.
- `Decimal`: the `${n}` rendering used in vote ids.
- `JsString`: `String.prototype.trim`.
- `Counting`: the vote tally and its sums.

## Model

| member | source | states |
|---|---|---|
| Entities.FindIndex | src/lib/db.ts:117 | the index of the first element satisfying the predicate; none exactly when no element does (the `-1` of `findIndex`) |
| Entities.Find | src/lib/db.ts:113 | the first element satisfying the predicate, with every earlier element failing it; none exactly when no element does |
| Entities.Where | src/lib/db.ts:131 | `filter` never returns more elements than it was given |
| Entities.WhereMembers | src/lib/db.ts:131 | `filter` keeps every element satisfying the predicate and nothing else |
| Entities.WhereSubsequence | src/lib/db.ts:131 | `filter` keeps its elements in their stored order: the result is a subsequence of the input |
| Entities.WhereMultiplicity | src/lib/db.ts:131 | each element satisfying the predicate is kept as often as it occurs in the input, and any other element not at all |
| Entities.WhereEmpty | src/lib/db.ts:131 | `filter` gives nothing exactly when no element satisfies the predicate |
| Entities.WhereAppend | src/lib/db.ts:131 | filtering a concatenation filters each part and keeps their order |
| Entities.WhereStartsWithFind | src/lib/vote-service.ts:79-84 | the filtered list is empty exactly when `find` gives nothing, and its first element is what `find` gives |
| Entities.SetVoteStatus | src/lib/db.ts:116-123 | the update keeps the number of users, every id and every voter id; a user that differs afterwards differs only in the voted flag, which now holds the new value |
| Entities.SetVoteStatusUnknown | src/lib/db.ts:116-123 | an id no user has leaves the users unchanged |
| Entities.SetVoteStatusFrame | src/lib/db.ts:116-123 | only the first user with the id gets the new flag; every other user is unchanged |
| Entities.SetVoteStatusIdempotent | src/lib/db.ts:116-123 | setting the same flag twice is the same as setting it once |
| Entities.SetVoteStatusSameIndex | src/lib/db.ts:117-119 | the update changes no id, so every later lookup by id finds the same position |
| Entities.WhereSetVoteStatus | src/lib/supabase-service.ts:147-152 | after the update, the rows with the id are the old ones with the first one's flag changed |
| Decimal.NatToString | src/lib/db.ts:134 | `${n}` is a non-empty string of decimal digits with no leading zero |
| Decimal.NatToStringRoundTrip | src/lib/db.ts:134 | reading the rendering back gives the number |
| Decimal.NatToStringInjective | src/lib/db.ts:134 | distinct numbers render differently |
| Decimal.VoteIdInjective | src/lib/db.ts:134 | distinct vote numbers give distinct vote ids |
| JsString.Trim | src/lib/supabase-service.ts:107 | `trim` never lengthens its input, and its result neither starts nor ends with ECMAScript white space or a line terminator |
| JsString.TrimShape | src/lib/supabase-service.ts:107 | `trim` gives a slice of its input; what it cuts at either end is ECMAScript white space or a line terminator, and the result neither starts nor ends with one |
| JsString.TrimIdempotent | src/lib/supabase-service.ts:107 | `trim` is idempotent: its result has nothing left to trim |
| Counting.CountFor | src/lib/db.ts:152 | a party's count is at most the number of votes, and 0 exactly when no vote names the party |
| Counting.Tally | src/lib/supabase-service.ts:243-246 | every key of the tally holds at least one and at most the number of votes |
| Counting.CountForSnoc | src/lib/supabase-service.ts:245 | one more vote raises its own party's count by one and no other count |
| Counting.TallyKeys | src/lib/supabase-service.ts:243-246 | the tally has a key for exactly the party ids that occur in the votes |
| Counting.TallyCounts | src/lib/supabase-service.ts:243-246 | each party's count, 0 when its key is missing, is the number of votes naming it |
| Counting.SumAtTally | src/lib/supabase-service.ts:243-246 | summing the tally over a list of ids sums the vote counts of those ids |
| Counting.SumCountsCovered | src/lib/supabase-service.ts:243-246 | over distinct ids, the summed counts equal the number of votes naming one of the ids |
| Counting.TallyTotal | src/lib/supabase-service.ts:243-246 | the tally's values sum to the number of votes |
| MockDb.SequentialIdsDistinct | src/lib/db.ts:132-139 | while the vote ids are sequential, no two stored votes share an id |
| MockDb.VotesByUserAfterAppend | src/lib/db.ts:131-139 | an appended vote extends its own voter's votes at the end and leaves every other voter's votes as they were |
| MockDb.MockDatabase.constructor | src/lib/db.ts:37-107 | the tables start with the seed data, whose vote ids are sequential |
| MockDb.MockDatabase.GetUserByVoterId | src/lib/db.ts:115 | the first user whose voter id equals the argument exactly (untrimmed, case-sensitive); none exactly when there is no such user |
| MockDb.MockDatabase.GetUserById | src/lib/db.ts:113 | the first stored user with the id, every earlier user having another id; none exactly when there is none |
| MockDb.MockDatabase.GetUserByEmail | src/lib/db.ts:114 | the first stored user with the email, every earlier user having another email; none exactly when there is none |
| MockDb.MockDatabase.GetPartyById | src/lib/db.ts:127 | the first catalogued party with the id, every earlier party having another id; none exactly when there is none |
| MockDb.MockDatabase.GetElectionById | src/lib/db.ts:160 | the first stored election with the id, every earlier election having another id; none exactly when there is none |
| MockDb.MockDatabase.GetActiveElection | src/lib/db.ts:159 | the first active election; none exactly when no election is active |
| MockDb.MockDatabase.GetVotesByUserId | src/lib/db.ts:131 | exactly the stored votes of that user, each as often as it is stored and in stored order |
| MockDb.MockDatabase.UpdateUserVoteStatus | src/lib/db.ts:116-123 | the users become `SetVoteStatus` of the old users; null exactly for an unknown id; otherwise the first user with the id, with the new flag, as now stored at its position |
| MockDb.MockDatabase.CreateVote | src/lib/db.ts:132-148 | exactly one vote is appended, `vote-<old length + 1>` with the given user and party; the voter is flagged (nobody, for an unknown id); the ids stay sequential |
| MockDb.MockDatabase.GetVoteCountByParty | src/lib/db.ts:149-155 | one key per catalogued party, holding the number of votes naming it; votes for other parties are counted nowhere |
| SupabaseService.UserById | src/lib/supabase-service.ts:80-87 | the one store row with the id; null on an error, on no row and on several rows |
| SupabaseService.FindVoter | src/lib/supabase-service.ts:97-136 | null for an empty id; the first test user whose voter id equals the trimmed input when there is one; otherwise the one store row with that voter id, null on none, several or an error |
| SupabaseService.FindVoterTestUserFirst | src/lib/supabase-service.ts:107-111 | a test-user match depends neither on the store nor on whether the store fails |
| SupabaseService.UserRecord | src/lib/supabase-service.ts:140-158 | the record the flag update writes carries the id asked for |
| SupabaseService.StatusUpdate | src/lib/supabase-service.ts:138-159 | a test user's flag is always set in place and the store is untouched; otherwise the test users are untouched and the one store row is updated as `SetVoteStatus` does; an error, no row or several rows give null and change nothing; votes, parties and elections are never touched; the returned user is the record now stored |
| SupabaseService.StatusUpdateIdempotent | src/lib/supabase-service.ts:138-159 | a second identical update changes nothing more |
| SupabaseService.StatusUpdateTestUserFrame | src/lib/supabase-service.ts:140-144 | a test-user update sets only that entry's flag, returns the entry and leaves the store and the other test users unchanged |
| SupabaseService.VoteInsert | src/lib/supabase-service.ts:215-233 | an insert error gives null and changes nothing; otherwise exactly one vote is appended and returned, and the voter's record is flagged when the update succeeds; a test user's vote flags that entry only and leaves the store's users unchanged; any other voter's vote leaves the test users unchanged and changes the store's users exactly as `SetVoteStatus` does when that update succeeds, and not at all otherwise |
| SupabaseService.PartyById | src/lib/supabase-service.ts:187-194 | the one party with the id; null on an error, on no row and on several rows |
| SupabaseService.VotesByUser | src/lib/supabase-service.ts:206-213 | exactly that user's votes, each as often as it is stored and in stored order; empty on an error |
| SupabaseService.ActiveElection | src/lib/supabase-service.ts:261-272 | the one active election; null when there is none, several, or an error |
| SupabaseService.Service.constructor | src/lib/supabase-service.ts:38-67 | the service starts with the test users and the given store |
| SupabaseService.Service.UpdateUserVoteStatus | src/lib/supabase-service.ts:138-159 | the new state and the result are those of `StatusUpdate` |
| SupabaseService.Service.CreateVote | src/lib/supabase-service.ts:215-233 | the new state and the result are those of `VoteInsert` |
| SupabaseService.Service.GetVoteCountByParty | src/lib/supabase-service.ts:235-249 | empty on an error; otherwise one key per party id occurring in the votes, each holding that party's number of votes |
| VoteService.CastVoteSpec | src/lib/vote-service.ts:6-60 | an unknown voter or a voter already flagged gives null and changes nothing; otherwise the result is that of `createVote`; a vote is appended exactly when the result is non-null, and then the voter's record is flagged unless that update failed |
| VoteService.CastVote | src/lib/vote-service.ts:6-50 | the new state and the result are those of `CastVoteSpec` |
| VoteService.TestUserRejected | src/lib/vote-service.ts:9-17 | as written, a voter without a store row is always rejected, test users included |
| VoteService.LoggedInTestUserCannotVote | src/lib/vote-service.ts:9-17 | voter VOT12345 logs in as a test user who has not voted, yet the vote is refused as written and recorded under the corrected workflow |
| VoteService.AsWrittenSecondVote | src/lib/vote-service.ts:19-29 | as written, an id shared by a test user and an unflagged store row can vote twice in a row |
| VoteService.FirstVoteKeepsStoreRow | src/lib/vote-service.ts:19-29 | as written, a test user's successful vote leaves the store's user rows unchanged |
| VoteService.CastVoteIntended | src/lib/vote-service.ts:9-29 | the corrected workflow checks the record the flag update writes; a voter without a record or already flagged gives null and changes nothing; an eligible voter gets exactly the result of `createVote`, so a failure changes nothing and a success appends exactly one vote and changes only the voter's record, flagging it unless that update failed |
| VoteService.IntendedLoggedInVoterCanVote | src/lib/vote-service.ts:9-29 | under the corrected workflow, with unique ids, a voter who logs in and has not voted can vote |
| VoteService.IntendedNoSecondVote | src/lib/vote-service.ts:19-26 | under the corrected workflow, once a vote is recorded and the voter flagged, every later attempt is refused and changes nothing |
| VoteService.WhereUniqueId | src/lib/supabase-service.ts:81 | with unique ids, the rows with a stored user's id are that user alone |
| VoteService.Insert | src/lib/vote-service.ts:70 | inserting into the sorted rows adds one row, which goes in front or behind the old first row |
| VoteService.InsertPermutes | src/lib/vote-service.ts:70 | inserting a row adds exactly that row and loses none |
| VoteService.InsertSorted | src/lib/vote-service.ts:70 | inserting into rows ordered by non-increasing count keeps them ordered |
| VoteService.SortByCount | src/lib/vote-service.ts:70 | the sort returns a permutation of its input, ordered by non-increasing count |
| VoteService.InsertWithCount | src/lib/vote-service.ts:70 | an inserted row goes before the rows with its own count and reorders nothing else |
| VoteService.SortStable | src/lib/vote-service.ts:70 | the sort is stable: the rows of each count keep their relative order |
| VoteService.SortSortedIsIdentity | src/lib/vote-service.ts:70 | rows already in order are left as they are |
| VoteService.StableArrangementUnique | src/lib/vote-service.ts:70 | any two stable sorts by descending count agree, so every stable sort gives the same result |
| VoteService.Join | src/lib/vote-service.ts:67-69 | one row per catalogued party |
| VoteService.JoinRows | src/lib/vote-service.ts:67-69 | the i-th row holds the i-th party and its count, 0 when the tally lacks it |
| VoteService.JoinMultiplicity | src/lib/vote-service.ts:67-69 | each party's row occurs as often as the party does in the catalog |
| VoteService.Results | src/lib/vote-service.ts:67-70 | one row per catalogued party |
| VoteService.ResultsCoverCatalog | src/lib/vote-service.ts:67-69 | the results are a permutation of the catalog: each party appears as often as in the catalog (once, without repeats), with its tallied count or 0 |
| VoteService.ResultsOrder | src/lib/vote-service.ts:70 | the results run by non-increasing count, tied parties keep catalog order, and no other arrangement does both |
| VoteService.ResultsNoVotes | src/lib/vote-service.ts:67-70 | with no votes, every party shows 0 in catalog order |
| VoteService.PartyIds | src/lib/vote-service.ts:69 | the ids of the catalogued parties, in order |
| VoteService.ResultsTotal | src/lib/vote-service.ts:64-70 | over a tally of the votes and a catalog of distinct ids, the counts shown add up to the votes naming a catalogued party, and so to all votes when every vote names one |
| VoteService.GetResults | src/lib/vote-service.ts:62-75 | the rows are ordered by non-increasing count, a stable arrangement of the catalog joined with the tally (empty tally or catalog on an error), one per party, with counts defaulting to 0 |
| VoteService.UserVote | src/lib/vote-service.ts:77-96 | null on an error or when the user has no vote; otherwise the first of the user's votes paired with its party, and null exactly when that party lookup gives no single party |

The getters `getUsers`, `getParties`, `getVotes` and `getElections` of the
mock database (`MockDb.MockDatabase.GetUsers` and its siblings) are functions
that return the table's value and cannot change any state; what they do not
capture is the shallow-copy line under "## Left out". The same holds for
`getParties` of the hosted-store service (`SupabaseService.Parties`), which
returns the catalog or, on an error, nothing.

## Left out

- Timestamps and election dates (`new Date()`) are dropped from the
  entities. Nothing in the ledger's rules reads them.
- The getters `getUsers`, `getParties`, `getVotes` and `getElections` of the
  mock database return the field's value. Sequences are values in Dafny, so
  a copy can never change the stored arrays. The model does not capture
  that the JavaScript copies are shallow: an object they return is shared
  with the table, and a later flag update shows through it.
- Objects returned by `find` in `src/lib/db.ts` are references in the
  source and values here. The same goes for `src/lib/supabase-service.ts`:
  `getUserByVoterId` returns the `TEST_USERS` entry itself (lines 107-110),
  and `updateUserVoteStatus` changes that entry in place and returns it
  (lines 142-143), so a user object obtained at login shows a later flag
  update. The model returns values, and such aliasing is not modelled.
- A failed store call writes nothing in the model. That includes an insert
  the store committed but whose response was lost.
- The network calls of the hosted store are not modelled. Each is a read or
  write of the `Store` value plus a `failure` flag standing for any error
  (network, row-level security, constraint). The id the store gives a new
  vote is a parameter. Rows come back in stored order.
- In the model every read returns the whole table. A hosted-store select
  without a range returns at most the project's row cap (1000 rows by
  default) without reporting an error. So on a larger votes table
  `getVoteCountByParty` (src/lib/supabase-service.ts:236) counts only the
  rows it receives. The model has no such cap and no pagination.
  `Counting.TallyTotal`, `VoteService.ResultsTotal` and
  `SupabaseService.Service.GetVoteCountByParty`
  hold for the rows the read returns, which equal the whole table only up to
  that cap.
- Neither the source nor the model checks that the voted party exists
  before the insert. A foreign-key rejection by the store is one of the
  outcomes of the insert failure.
- The `localStorage` block of `castVote` (src/lib/vote-service.ts:32-43),
  toasts and console logging are browser side effects and are left out.
- The `try`/`catch` blocks of `src/lib/vote-service.ts` catch nothing the
  model can raise, since every store error is a value here.
- `getUsers`, `getUserByEmail`, `getVotes`, `getElections` and
  `getElectionById` of `src/lib/supabase-service.ts` are plain queries that
  the voting workflow does not use. `createUser`
  (src/lib/supabase-service.ts:161-175) is an insert into the users table;
  its own comment says it is no longer used, and none of the modelled files
  calls it. `getCurrentElection`
  (src/lib/vote-service.ts:98-100) only forwards to `getActiveElection`,
  which is `SupabaseService.ActiveElection`.
- Counts are kept in a `map`. The model leaves out the inherited properties
  of a JavaScript object, such as a party id spelled `constructor`.
- The result percentage of the results page uses floating point and is
  left out.
- Concurrent submissions (the double-vote race between the flag check and
  the flag update) are not expressible in this sequential model.
- `SupabaseService.Service.CreateVote` follows the code: a failed flag
  update after a successful insert is ignored, and the vote is still
  returned.

## Findings

| source | as written | input that shows it | evidently intended | confidence | as-written member | corrected member |
|---|---|---|---|---|---|---|
| src/lib/vote-service.ts:9 | `castVote` decides eligibility with `getUserById`, which asks the store only. Login (`getUserByVoterId`) and `updateUserVoteStatus` consult `TEST_USERS` first. | the test users with a store holding no user rows: voter `VOT12345` logs in as user `12345678-1234-1234-1234-123456789012`, who has not voted, and `castVote` with that id returns null | a voter who is logged in and has not voted can cast one vote | not executed | VoteService.LoggedInTestUserCannotVote | VoteService.CastVoteIntended |
| src/lib/vote-service.ts:19 | the flag that is read (the store row) is not the flag that is written (the test-user entry) when an id is in both tables | an id present in `TEST_USERS` and in exactly one unflagged store row: two `castVote` calls both succeed and append two votes | once a vote is recorded, further attempts by the same voter are refused | not executed | VoteService.AsWrittenSecondVote | VoteService.IntendedNoSecondVote |
