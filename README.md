# Moonclerk customer cache, modelled in Dafny

This project models `MoonclerkCustomerDatabase`, the back end's in-memory cache
that maps a lower-cased email address to the member's Moonclerk customer
record. The cache is rebuilt from the paginated Moonclerk customers API at most
once a day. The model covers four parts:

- the staleness check (`needsRefresh`);
- the paginated bulk load and its preemption check (`loadAllCustomers`);
- the refresh state machine (`refresh`): the single-flight gate, the takeover
  of a refresh stuck for more than 30 minutes, and the merge that resolves
  several records for one email;
- the case-insensitive lookup (`getMembershipStatus`).

Files:

- `records.dfy` (module `Records`): the customer record, ASCII lower-casing,
  and the merge. `Merge` is a recursive specification of the merge loop. It is
  proved equal, key by key, to `Winner`, an independent definition: the last
  active record's id wins, otherwise the first record's id, and the record
  stored is the last one carrying that id.
- `paging.dfy` (module `Paging`): the upstream as a function `(count, offset)
  -> page`, the concatenation of pages before the first empty one, and a proof
  that a well-behaved upstream serving a fixed list is reassembled exactly.
- `database.dfy` (module `Database`): the class `CustomerDatabase` with the
  three fields the source updates in place (`customers`, `lastRefresh`,
  `lastStartedRefreshing`). It holds the loop methods `LoadAllCustomers` and
  `Refresh`. `Refresh` is proved against the pure transition `RefreshSpec`, and
  the lemmas state the state machine's properties in terms of `RefreshSpec`.

Time is integer milliseconds passed in as parameters:

- `now` is the instant at which `refresh` checks staleness and claims the
  refresh slot. The three clock readings at lines 44, 50 and 66 are taken to
  be one instant.
- `doneAt` is the instant at which a load that was not preempted completes
  (line 94).

The page fetch is a parameter `fetch`. A ghost page index `bound` at which
`fetch` returns an empty page guarantees that the load terminates.

Other callers that run while the pages are being fetched are represented by
one value, `markerAtEnd`. It is what the suspended load finds in
`lastStartedRefreshing` when it resumes.

Two behaviours of the code worth knowing:

- **No active record for an email.** The code skips every non-active record
  whose id differs from the stored one. So the stored id is that of the FIRST
  record seen (`FirstSeenWinsWithoutActive`, `FirstInactiveKeptExample`).
- **Preemption.** A preempted refresh does not clear `lastStartedRefreshing`.
  The marker stays as the other caller left it
  (`PreemptedRefreshKeepsSnapshot`).

## Model

| member | source | states |
|---|---|---|
| `Records.Lower` | apps/backend/src/moonclerk/MoonclerkCustomerDatabase.ts:75 | ASCII `toLowerCase`: same length, no upper-case letter left; see `LowerIdempotent`, `CaseCollapsesExample` |
| `Records.Key` | apps/backend/src/moonclerk/MoonclerkCustomerDatabase.ts:75 | definition: a record's key is its lower-cased email; see `MergeKeys`, `MergeValues` |
| `Records.Insert` | apps/backend/src/moonclerk/MoonclerkCustomerDatabase.ts:77-90 | one merge step adds the record's key, leaves every other key untouched, and either stores the incoming record or keeps the stored one, the latter only for a non-active incoming record |
| `Records.Merge` | apps/backend/src/moonclerk/MoonclerkCustomerDatabase.ts:72-91 | definition: the merge loop from an empty map in delivery order; see `MergeIsWinner`, `MergeKeys`, `MergeValues`, `MergeIdempotent` |
| `Records.Lookup` | apps/backend/src/moonclerk/MoonclerkCustomerDatabase.ts:100 | definition: the entry under the lower-cased email, absence allowed; see `LookupIgnoresCase`, `LookupInMerge` |
| `Records.LowerIdempotent` | apps/backend/src/moonclerk/MoonclerkCustomerDatabase.ts:75 | lower-casing a key again leaves it unchanged, so stored keys are already in lookup form |
| `Records.MergeIsWinner` | apps/backend/src/moonclerk/MoonclerkCustomerDatabase.ts:72-91 | for every key, the merge stores exactly the reference winner: nothing if no record has that email, otherwise the last record carrying the winning id (the last active record's id, or else the first record's id) |
| `Records.MergeKeys` | apps/backend/src/moonclerk/MoonclerkCustomerDatabase.ts:72-90 | the snapshot's key set is exactly the set of lower-cased emails of the loaded records |
| `Records.MergeValues` | apps/backend/src/moonclerk/MoonclerkCustomerDatabase.ts:74-90 | every stored value is one of the loaded records, and its lower-cased email is the key it is filed under |
| `Records.LastActiveWins` | apps/backend/src/moonclerk/MoonclerkCustomerDatabase.ts:77-90 | when an email has an active record, the stored id is that of the last active record for it |
| `Records.FirstSeenWinsWithoutActive` | apps/backend/src/moonclerk/MoonclerkCustomerDatabase.ts:77-90 | when no record for an email is active, the stored id is that of the first record seen for it |
| `Records.MergeIdempotent` | apps/backend/src/moonclerk/MoonclerkCustomerDatabase.ts:72-91 | merging a delivery twice over gives the same snapshot as merging it once |
| `Records.LookupIgnoresCase` | apps/backend/src/moonclerk/MoonclerkCustomerDatabase.ts:100 | looking up an email and its lower-cased form give the same result |
| `Records.LookupInMerge` | apps/backend/src/moonclerk/MoonclerkCustomerDatabase.ts:72-101 | a lookup in a merged snapshot finds a record iff some loaded record has that email up to case; what it finds is a loaded record with that key and the winning id |
| `Records.ActiveWinsExamples` | apps/backend/src/moonclerk/MoonclerkCustomerDatabase.ts:84-90 | an active record replaces an inactive one with another id, and an inactive one never replaces an active one |
| `Records.FirstInactiveKeptExample` | apps/backend/src/moonclerk/MoonclerkCustomerDatabase.ts:77-88 | of two inactive records with different ids for one email, the first is kept |
| `Records.CaseCollapsesExample` | apps/backend/src/moonclerk/MoonclerkCustomerDatabase.ts:75 | `Foo@X.com` and `foo@x.com` collapse into the single key `foo@x.com` |
| `Paging.Page` | apps/backend/src/moonclerk/MoonclerkCustomerDatabase.ts:30 | definition: the i-th call asks for 100 records at offset 100·i; see `LoadAllCustomers` |
| `Paging.Concat` | apps/backend/src/moonclerk/MoonclerkCustomerDatabase.ts:32 | definition: the in-order concatenation of the first n pages; see `PagingReassembles` |
| `Paging.AllCustomers` | apps/backend/src/moonclerk/MoonclerkCustomerDatabase.ts:29-34 | definition: the pages before the first empty one, concatenated; see `PagingReassembles`, `TwoFullPagesExample` |
| `Paging.FirstEmpty` | apps/backend/src/moonclerk/MoonclerkCustomerDatabase.ts:29-34 | the page at which the load stops is empty, and every page before it is non-empty |
| `Paging.FirstEmptyUnique` | apps/backend/src/moonclerk/MoonclerkCustomerDatabase.ts:31 | the stopping page is determined by the upstream alone: any empty page preceded only by non-empty ones is it |
| `Paging.PagingReassembles` | apps/backend/src/moonclerk/MoonclerkCustomerDatabase.ts:25-34 | against an upstream that serves a fixed list in windows, the load stops after ceil(n/100) pages and accumulates exactly that list |
| `Paging.TwoFullPagesExample` | apps/backend/src/moonclerk/MoonclerkCustomerDatabase.ts:29-34 | pages of 100, 100 and 0 records give 3 fetches and 200 records |
| `Database.NeedsRefresh` | apps/backend/src/moonclerk/MoonclerkCustomerDatabase.ts:43-45 | definition of `needsRefresh`; see `StaleExactlyAfterADay` |
| `Database.RefreshInProgress` | apps/backend/src/moonclerk/MoonclerkCustomerDatabase.ts:49-50 | definition: a claim no more than 30 min old is waited for; see `TakeoverExactlyAfterHalfAnHour`, `ConcurrentCallerWaits` |
| `Database.Loads` | apps/backend/src/moonclerk/MoonclerkCustomerDatabase.ts:48-59 | definition: a call goes on to load iff the cache is stale and no young refresh is in flight; see `Refresh` |
| `Database.Preempted` | apps/backend/src/moonclerk/MoonclerkCustomerDatabase.ts:27-36 | definition of the marker comparison, with a missing captured marker (an invalid date) always unequal; see `StuckRefreshIsTakenOver` |
| `Database.LoadOutcome` | apps/backend/src/moonclerk/MoonclerkCustomerDatabase.ts:36-40 | definition of what `loadAllCustomers` returns; see `LoadAllCustomers` |
| `Database.RefreshSpec` | apps/backend/src/moonclerk/MoonclerkCustomerDatabase.ts:47-96 | a refresh keeps the snapshot or installs the merge of the loaded records; it keeps `lastRefresh` or sets it to the completion time, and only together with a new snapshot and a cleared marker; a call that does not load changes nothing |
| `Database.StaleExactlyAfterADay` | apps/backend/src/moonclerk/MoonclerkCustomerDatabase.ts:43-45 | never refreshed is stale; otherwise stale iff strictly more than 24 h have passed, so exactly 24 h is still fresh |
| `Database.TakeoverExactlyAfterHalfAnHour` | apps/backend/src/moonclerk/MoonclerkCustomerDatabase.ts:49-50 | a refresh claimed at t is waited for up to and including t + 30 min and taken over after that |
| `Database.FreshRefreshIsNoOp` | apps/backend/src/moonclerk/MoonclerkCustomerDatabase.ts:48 | refreshing a fresh cache loads nothing and changes nothing |
| `Database.ConcurrentCallerWaits` | apps/backend/src/moonclerk/MoonclerkCustomerDatabase.ts:49-58 | while a refresh claimed no more than 30 min ago is in flight, another call does not load and changes nothing |
| `Database.StuckRefreshIsTakenOver` | apps/backend/src/moonclerk/MoonclerkCustomerDatabase.ts:36-38 | a stale cache whose refresh was claimed more than 30 min ago starts a new load; the stuck load then finds the new marker and is discarded |
| `Database.PreemptedRefreshKeepsSnapshot` | apps/backend/src/moonclerk/MoonclerkCustomerDatabase.ts:67-71 | a preempted refresh leaves the snapshot and the completion time unchanged, so the cache stays stale; the marker is the one the other caller left |
| `Database.RefreshOnlyAdvances` | apps/backend/src/moonclerk/MoonclerkCustomerDatabase.ts:92-94 | when the completion clock reads no earlier than the start, `lastRefresh` either stays or moves strictly forward to the completion time, and only through a refresh that loaded and was not preempted |
| `Database.SuccessfulRefreshIsFresh` | apps/backend/src/moonclerk/MoonclerkCustomerDatabase.ts:72-94 | a successful refresh installs the merge of the loaded records alone, clears the marker, and keeps the cache fresh for 24 h after completion, during which a further refresh is a no-op |
| `Database.LookupAfterRefresh` | apps/backend/src/moonclerk/MoonclerkCustomerDatabase.ts:98-101 | after a successful refresh, an email is found iff a loaded record has it up to case, and the record found carries the winning id |
| `Database.CustomerDatabase.constructor` | apps/backend/src/moonclerk/MoonclerkCustomerDatabase.ts:6-10 | a new cache is empty, never refreshed and not refreshing |
| `Database.CustomerDatabase.LoadAllCustomers` | apps/backend/src/moonclerk/MoonclerkCustomerDatabase.ts:24-41 | the loop fetches pages at offsets 0, 100, 200, …, makes (non-empty pages + 1) calls, and returns all pages before the first empty one, or nothing if the captured marker is no longer in place |
| `Database.CustomerDatabase.Refresh` | apps/backend/src/moonclerk/MoonclerkCustomerDatabase.ts:47-96 | the new state of the three fields is `RefreshSpec` of the old; the in-place merge loop builds exactly `Merge` of the loaded records; it makes (non-empty pages + 1) upstream calls when it loads and none otherwise |
| `Database.CustomerDatabase.GetMembershipStatus` | apps/backend/src/moonclerk/MoonclerkCustomerDatabase.ts:98-101 | refreshes as `Refresh` does, with the same upstream calls, then returns the entry under the lower-cased email, absent being a normal result |

## Left out

- `loadCustomers` (the HTTP call through `needle`, the API key from the
  environment, its logging) is not part of this model. The page fetch is the
  parameter `fetch`. It is assumed to answer the same page for the same offset
  during one load, and to return an empty page at some offset.
- Failing fetches are not modelled. In the source an exception aborts the
  refresh and leaves `lastStartedRefreshing` set, with `customers` and
  `lastRefresh` unchanged.
- The polling wait for another caller's refresh (lines 54-56) is modelled only
  by its effect on this call: it returns with nothing loaded and no field
  written.
- Interleaving with other callers is reduced to `markerAtEnd`. Writes that a
  competing refresh makes to `customers` or `lastRefresh` while this load is
  suspended are not modelled.
- All console output is left out, including the warning about two active
  subscriptions with different ids for one email (it does not change the
  merge).
- The three clock readings of `refresh` before its first suspension (lines
  44, 50 and 66) are one value `now`. A difference between them at a
  one-millisecond boundary (stale at one reading, a different stuck test at
  the next) is not modelled.
- The clock is integer milliseconds passed in. `Date` objects and their
  arithmetic are not modelled.
- `toLowerCase` is modelled for ASCII letters only. Unicode case mapping is
  not modelled.
- A customer record carries only `id`, `email` and `subscription.status`. The
  rest of the `MoonclerkCustomer` type lives in `./types`, which is not part of
  this model.
- The snapshot is a Dafny map. The quirks of a plain JavaScript object used as
  a dictionary (keys such as `__proto__`) are not modelled.
