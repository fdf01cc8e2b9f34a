# Top GitHub users of a location: ranking and upsert, modelled in Dafny

The backend (`bE/app.mjs`) asks the GitHub search API for three pages of
users located in Sri Lanka, looks up each user's public repository count,
ranks the users by that count, keeps the top 300 and upserts them into a
MongoDB collection keyed by username. This project models the two pieces
of that backend that hold logic:

- **`getTopUsers`** (module `Ranking`, `ranking.dfy`), a pure function of
  its inputs once the network is replaced by them. Each page request and
  each count lookup is a `Response` that either succeeded or `Failed`. A
  failed page contributes no entries. A failed lookup gives count 0. The
  pages are concatenated in order, without deduplication. Each entry is
  paired with its own lookup, so the lookups form a sequence aligned with
  the concatenation. The entries are then sorted by count, largest first,
  with a stable sort (`SortDesc`, an insertion sort), and the first 300
  are kept. Array.prototype.sort has been stable since the 2019 edition
  of ECMA-262. `SortDescIsTheStableSort` proves that any stable
  descending ordering of the candidates equals `SortDesc`. The model
  therefore does not depend on the sorting algorithm an engine uses.
- **`storeUsersInDatabase`** (module `UserStore`, `store.dfy`), a class
  `UserDatabase` whose `records: map<string, StoredUser>` field stands for
  the collection. Its method `StoreUsersInDatabase` loops over the ranked
  list. For each candidate it finds the record by username. If a record
  exists, it overwrites the avatar URL, profile URL and repository count.
  Otherwise it inserts a new record. Each record carries the identifier
  the store gave it at insertion. An update keeps that identifier and an
  insert takes a fresh one, which is how an updated document differs from
  a new one. The method is proved equal to the specification function
  `UpsertAll`, a left fold of `Upsert`, and the properties are lemmas
  about `UpsertAll`.
- `Pipeline` (`pipeline.dfy`) links the two. A username can be ranked
  twice because the pages are not deduplicated. In that case its stored
  record holds the entry ranked last, which has the smallest count.

Two points where the code's behaviour is easy to misread:

- The pages are not deduplicated. A user found on two pages is looked up
  twice, ranked twice and upserted twice.
- The `try` in `storeUsersInDatabase` wraps the whole `for` loop
  (bE/app.mjs:95-120). A database failure on candidate k therefore ends
  the run. Candidates before k stay written, and no candidate from k on
  is tried. The failure is not handled per item. The model takes the
  failing position as an input (`failAt`).

## Model

| member | source | states |
|---|---|---|
| `Ranking.PageItems` | bE/app.mjs:36-43 | a failed page request contributes no entries, a successful one its items; the properties are in `FailedPagesContributeNothing` and `TopUsersPermutation` |
| `Ranking.Concat` | bE/app.mjs:73 | the three pages in page order and in-page order, duplicates kept; `TopUsersPermutation`, `TopUsersStable` and `TopUsersEntriesFromInput` state what the ranking keeps of it |
| `Ranking.RepoCount` | bE/app.mjs:57-64 | a failed count lookup yields 0, a successful one its value; `FailedLookupKeepsEntry` states that the entry is kept with count 0 |
| `Ranking.WithCounts` | bE/app.mjs:75-83 | one candidate per concatenated entry, in order; entry i carries item i's login, avatar and profile URL and the count of lookup i |
| `Ranking.TopUsers` | bE/app.mjs:67-92 | the ranking has min(entries, 300) candidates, never more than 300, and counts never increase along it |
| `Ranking.SortDesc` | bE/app.mjs:86 | the stable descending sort, built from `Insert`, which places an entry before the first entry of no larger count; `SortDescCorrect` and `SortDescIsTheStableSort` carry its properties |
| `Ranking.SortDescCorrect` | bE/app.mjs:86 | the sort orders by count, largest first, is a permutation of its input, and keeps the input order among entries of equal count |
| `Ranking.StableOrderingsAgree` | bE/app.mjs:86 | two descending orderings with the same order within every count are equal |
| `Ranking.SortDescIsTheStableSort` | bE/app.mjs:86 | any stable descending ordering of the candidates is `SortDesc` of them, so the model is the result of any conforming stable sort |
| `Ranking.TopUsersPermutation` | bE/app.mjs:73-87 | every ranked entry is a candidate (as a multiset); with at most 300 entries the ranking is a permutation of the concatenation, duplicates kept |
| `Ranking.TopUsersStable` | bE/app.mjs:73-87 | for every count, the ranked entries with that count are a prefix of the concatenation's entries with that count, in the same order; all of them with at most 300 entries |
| `Ranking.TopUsersKeepsLargest` | bE/app.mjs:86-87 | every candidate cut off by the slice has a count no larger than every kept entry |
| `Ranking.TopUsersEntriesFromInput` | bE/app.mjs:75-82 | every ranked entry has the login, avatar and profile URL of some concatenated item and the count of that item's own lookup |
| `Ranking.FailedLookupKeepsEntry` | bE/app.mjs:46-64 | a failed count lookup yields the entry with count 0, and that entry is ranked whenever at most 300 entries came in |
| `Ranking.FailedPagesContributeNothing` | bE/app.mjs:32-43 | a failed page adds no entries; when all three pages fail the ranking is empty |
| `Ranking.ThreeUserScenario` | bE/app.mjs:67-92 | pages alice, bob, carol with counts 10, 50, 30 rank as bob, carol, alice |
| `UserStore.Upsert` | bE/app.mjs:98-115 | one find-then-update-or-insert: an existing record keeps its identifier and gets the candidate's URLs and count, a missing one is inserted with the next identifier; `UpsertEffect` states this |
| `UserStore.UpsertAll` | bE/app.mjs:96-116 | the candidates upserted one after the other, in list order; `UpsertAllWellFormed`, `UpsertAllKeys`, `UpsertAllLeavesOthers`, `UpsertAllLastWins`, `UpsertAllIdempotent` and `UpsertAllSplit` carry its properties |
| `UserStore.Applied` | bE/app.mjs:95-120 | how many candidates a run writes when the database fails at `failAt`: never more than the list holds; `UserDatabase.StoreUsersInDatabase` states the no-failure and failure cases |
| `UserStore.UpsertEffect` | bE/app.mjs:98-115 | one upsert adds the candidate's username, makes its record reflect the candidate, keeps every existing identifier, leaves other records alone, inserts nothing when the username exists, and otherwise inserts the record with the next identifier and advances the counter by one |
| `UserStore.UpsertAllWellFormed` | bE/app.mjs:96-116 | a run keeps one record per username, under its own username, with distinct identifiers |
| `UserStore.UpsertAllKeys` | bE/app.mjs:96-116 | after a run the store holds exactly the previous usernames and the candidates' usernames |
| `UserStore.UpsertAllLeavesOthers` | bE/app.mjs:100-105 | records of usernames not in the list are unchanged, and existing records keep their identifier |
| `UserStore.UpsertAllLastWins` | bE/app.mjs:96-116 | every listed username has a record, and it holds the URLs and count of that username's last occurrence in the list |
| `UserStore.UpsertAllNoInserts` | bE/app.mjs:100-105 | a run over usernames that are all stored inserts no record |
| `UserStore.UpsertAllIdempotent` | bE/app.mjs:94-121 | upserting the same list twice leaves the same store as upserting it once |
| `UserStore.UpsertAllSplit` | bE/app.mjs:95-120 | a run over a list equals a run over its first k entries followed by a run over the rest |
| `UserStore.UpdatedUserScenario` | bE/app.mjs:98-115 | storing dave and then dave with a new count leaves one record for dave, with the new count |
| `UserStore.UserDatabase.FindOne` | bE/app.mjs:98 | returns the record stored under the username, or none when there is no such record |
| `UserStore.UserDatabase.StoreUsersInDatabase` | bE/app.mjs:94-121 | the new store is the old one with the candidates before the failing position upserted in order: all of them when nothing fails, exactly the first k when the database fails on candidate k; the store stays well formed |
| `Pipeline.StoredCountIsSmallestRanked` | bE/app.mjs:128-129 | after storing a ranking, each ranked username's record has a count no larger than any of its ranked entries |

## Left out

- The HTTP clients `fetchUsersByRepos` and `fetchUserReposCount` (bE/app.mjs:23-65) are network I/O. Only whether each call succeeded enters the model. Left out with them are the query string, `encodeURIComponent`, the page size of 100 and the authorization header.
- The JSON shapes of the responses. A successful page whose body has no `items` makes the spread throw, and the outer `catch` of `getTopUsers` then returns `[]`. A missing or non-numeric `public_repos` makes the comparator return `NaN`. The model assumes a successful page yields a list of items and a successful lookup yields an integer.
- The `Promise.all` fan-out (bE/app.mjs:75-83) is modelled as a sequential map. `Promise.all` returns results in input order, and each count depends only on its own entry.
- Mongoose internals and the connection (bE/app.mjs:7, bE/app.mjs:15-18). The collection is an abstract map, and document identifiers are a counter.
- The Express routes, CORS, dotenv and `app.listen` (bE/app.mjs:11-21, bE/app.mjs:123-154) are HTTP plumbing. `GET /get-users` is among them. Because `storeUsersInDatabase` catches its own errors, `/fetch-and-store-users` answers 200 even when storing stopped early. That is visible in the route, which is not modelled.
- Two runs racing on the same store are not modelled: there is no concurrency in the model.
- Console logging is a side effect only.
- `view.mjs` renders the stored users into the DOM and has no logic of its own to state.
