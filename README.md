# Shopping list: reminders sync, aisle lookup and aisle grouping in Dafny

The shopping-list server reads the user's "Shopping" reminders and stores them
in a SQLite table `reminders`. It looks each one up in the supermarket's
product search to learn its aisle and image, and serves the list grouped by
aisle. This project models the three deterministic pieces of that pipeline
and proves properties about them:

- **Sync** (`storeReminders` and `processReminder`, src/reminders.ts). One
  transaction deletes rows whose ids are not in the snapshot, inserts unseen
  ids, refreshes stale, failed or renamed rows, and collects a work queue.
  The queue is then drained in order: each lookup's outcome is written back
  to its row at once, and `rejected` records whether any lookup failed.
  Module `Sync` gives the meaning as functions on a `map<string, Row>` keyed
  by the primary key. Class `Store.ReminderStore` does the same work
  imperatively on a mutable `rows` field: a deletion loop, the snapshot loop
  and the drain loop. Each method is proved equal to the functions.
- **Lookup decoding** (`locateProduct` in src/locateProduct.ts and the
  decoding tail of `getAisleInfo` in src/reminders.ts). The HTTP response is an
  input datatype, and `Locate.Decode` is the pure decision: a failure carrying
  the status, a success built from the first result, or "Unknown" with no
  image.
- **Grouping** (`groupAndSortReminders` in src/shoppingList.ts and its copy
  `transformAndSortResults` in src/reminders.ts). The two copies are the
  same algorithm, so one method, `Grouping.GroupAndSort`, models both. It
  fills the numeric `aisles` and textual `nonAisles` records push by push.
  It sorts the keys, splices the "Unknown" group out, and appends it last.
  `Grouping.Presents` is an independent description of a correct answer: each
  group is the rows carrying its label, in input order; every row is
  covered; the groups are in display order. The method is proved to meet it.
  Lemmas show that the answer is unique, that it is a permutation of the
  input, that labels are distinct and that "Unknown" comes last.

Supporting modules:

- `Text` provides a lexicographic order on strings (Dafny's `<` on
  sequences is the proper-prefix order), the `/^Aisle \d+$/` parser, and
  canonical decimals.
- `Sorting` provides the two sorts the source uses: the default string sort
  and the numeric comparator.
- `Timestamps` models the staleness test on the stored text timestamps.
- `Wrappers` holds `Option` and `Result`.

Timestamps elsewhere are integers (milliseconds) on one clock. The product
search is a parameter `fetch: string -> Option<Response>`, where `None` is a
rejected request. The clock value `now` is a parameter.

The model follows the code as written:

- `error` is one boolean. A failed lookup of any kind sets it, and a flagged
  row is queued again on every sync.
- The model uses the intended numeric staleness window, with a strict
  `<`: a row is stale when `updated_at < now - 6h`. The code compares text
  timestamps instead, which misfires (see "## Findings"). Sync.ExistingRowQueuedIff,
  Sync.SweepLeavesFresh, Sync.QuietSweep and Sync.ResyncIsQuiet hold for this
  corrected window, not for the text comparison as written.
- A changed title also queues a row. The refresh sets the name, resets
  `error` and stamps `updated_at`.
- Enrichment is written back row by row, each in its own update right after
  its lookup. It sets `aisle`, `image` and `error` and does not touch
  `updated_at`.
- Finding nothing is a success with aisle "Unknown" and no image.

## Model

| member | source | states |
|---|---|---|
| Text.TextLessIrreflexive | src/shoppingList.ts:64 | the string order used for text keys never puts a key before itself |
| Text.TextLessAsymmetric | src/shoppingList.ts:64 | the string order never puts two keys each before the other |
| Text.TextLessTransitive | src/shoppingList.ts:64 | the string order is transitive |
| Text.TextLessTotal | src/shoppingList.ts:64 | any two different keys are ordered one way or the other, so sorting distinct keys has one answer |
| Text.AisleNumber | src/shoppingList.ts:49-50 | a number is found exactly when the text is "Aisle " followed by one or more ASCII digits and nothing else |
| Text.DecimalRoundTrip | src/shoppingList.ts:75-78 | parsing the decimal key of a number gives the number back |
| Text.DecimalInjective | src/shoppingList.ts:75-78 | different numbers have different decimal keys |
| Text.AisleLabelRoundTrip | src/shoppingList.ts:75-78 | the label `Aisle ${key}` of a numeric bucket parses back to its own number |
| Text.LeadingZeroSameAisle | src/shoppingList.ts:49-50 | "Aisle 07" and "Aisle 7" both parse to aisle 7 |
| Locate.FromArticle | src/locateProduct.ts:31-35 | the image is the result's small image URI; the aisle is the location description when non-empty, else the result's own aisle, which may be null |
| Locate.Decode | src/locateProduct.ts:23-38 | a not-OK response fails with exactly its status (if and only if); an unreadable body fails; any readable body of an OK response succeeds (a null first result is outside this model); no or empty results give "Unknown" with no image; otherwise the first result decides |
| Locate.AisleInfo | src/reminders.ts:137-166 | a rejected request is a network failure; otherwise the outcome is the decoding of the response |
| Locate.FirstResultOnly | src/locateProduct.ts:30-31 | results after the first never change the outcome |
| Locate.NotOkCarriesStatus | src/locateProduct.ts:23-25 | a not-OK response fails with its status whatever its body |
| Locate.NothingFoundIsSuccess | src/locateProduct.ts:30-38 | a missing or empty result list is a success with aisle "Unknown" and no image |
| Sync.Inserted | src/reminders.ts:73-81 | an unseen id is stored with its title as name, no aisle, no image, no error, and created and updated now |
| Sync.Refreshed | src/reminders.ts:83-90 | a queued existing row gets the title, no error and the current time; aisle, image and creation time stay |
| Sync.Prune | src/reminders.ts:57-64 | the kept rows are exactly the stored rows whose ids are in the snapshot, unchanged |
| Sync.Reconciled | src/reminders.ts:51-95 | after the transaction the stored ids are exactly the snapshot's ids |
| Sync.SweepKeys | src/reminders.ts:66-94 | the snapshot loop adds exactly the snapshot's ids to the table |
| Sync.SweepQueueIsSubsequence | src/reminders.ts:66-94 | the queue lists snapshot entries in snapshot order |
| Sync.SubsequenceElements | src/reminders.ts:66-94 | every queued entry comes from the snapshot |
| Sync.SweepByEntry | src/reminders.ts:66-94 | with distinct ids, each entry's row is its expected row, ids outside the snapshot are untouched, and the queue is the selected entries |
| Sync.ReconcileByEntry | src/reminders.ts:51-95 | with distinct ids, each snapshot id ends with its expected row (inserted, refreshed or unchanged) and the queue is the selected entries in order |
| Sync.SelectedMembers | src/reminders.ts:73-93 | an entry is in the queue if and only if it is in the snapshot and is new or needs a refresh |
| Sync.SelectedDistinct | src/reminders.ts:66-93 | a queue drawn from distinct ids has distinct ids |
| Sync.NewIdInsertedAndQueued | src/reminders.ts:73-81 | an unseen id is inserted with its title, no error and the current time, and is queued |
| Sync.ExistingRowQueuedIff | src/reminders.ts:82-93 | a stored row is queued and refreshed if and only if it is older than six hours, flagged or renamed; otherwise it is left exactly as it was |
| Sync.StalenessBoundary | src/reminders.ts:48 | a row exactly six hours old is fresh; one a millisecond older is stale |
| Sync.Enrich | src/reminders.ts:117-131 | success sets aisle and image from the lookup and clears the error; failure sets the error and keeps aisle and image; name and timestamps never change |
| Sync.Drain | src/reminders.ts:97-106 | draining the queue keeps the set of stored ids |
| Sync.DrainFrame | src/reminders.ts:97-106 | the drain never changes names or timestamps and leaves every unqueued id alone |
| Sync.DrainByEntry | src/reminders.ts:97-106 | with distinct ids, each queued row gets its own lookup's outcome, whatever the other lookups did |
| Sync.DrainAllSucceeded | src/reminders.ts:117-124 | when every lookup succeeds, no row that was not flagged becomes flagged |
| Sync.Synced | src/reminders.ts:47-110 | after a whole sync the stored ids are exactly the snapshot's ids |
| Sync.SyncByEntry | src/reminders.ts:47-135 | with distinct ids, each snapshot row after a sync is its expected row, enriched by its lookup when queued |
| Sync.SweepLeavesFresh | src/reminders.ts:82-93 | after the snapshot loop every snapshot row is fresh: title as name, no error, inside the window |
| Sync.QuietSweep | src/reminders.ts:82-93 | a snapshot loop over fresh rows changes nothing and queues nothing |
| Sync.ResyncIsQuiet | src/reminders.ts:82-124 | after a sync whose lookups all succeeded, syncing the same snapshot again at any time before some snapshot row's six-hour window has elapsed queues nothing and changes nothing |
| Sync.ResyncAtSameClockIsQuiet | src/reminders.ts:82-124 | in particular, a second sync no later than the first one's clock value is quiet |
| Sync.QueuedRowSettles | src/reminders.ts:82-124 | with distinct ids, a row that was queued and looked up successfully is not queued again by any sync within six hours after |
| Sync.FailedLookupIsRetried | src/reminders.ts:82-131 | a failed lookup leaves its row flagged, and the next sync queues it again at any time |
| Store.ReminderStore.Reconcile | src/reminders.ts:51-95 | the deletion and snapshot loops leave the table and queue the transaction defines; the ids are the snapshot's; the queue is in snapshot order and is the selected entries |
| Store.ReminderStore.ProcessReminder | src/reminders.ts:112-135 | the row is written back with the lookup's outcome, and the call fails if and only if the lookup failed |
| Store.ReminderStore.Process | src/reminders.ts:97-109 | every queued entry is processed in order, even after failures, and `rejected` holds if and only if some lookup failed |
| Store.ReminderStore.StoreReminders | src/reminders.ts:47-110 | the table ends as the whole sync defines, and `rejected` holds if and only if a queued lookup failed |
| Sorting.SortText | src/shoppingList.ts:64 | the sorted text keys are a permutation of the keys |
| Sorting.SortTextIncreasing | src/shoppingList.ts:64 | distinct text keys come out in strictly increasing string order |
| Sorting.SortNumbers | src/shoppingList.ts:75 | the sorted aisle numbers are a permutation of the numbers |
| Sorting.SortNumbersIncreasing | src/shoppingList.ts:75 | distinct aisle numbers come out strictly ascending |
| Grouping.NamedIsText | src/shoppingList.ts:49-60 | a text bucket's key never parses as a numbered aisle |
| Grouping.LabelNamesBucket | src/shoppingList.ts:49-78 | a group's label, read back as an aisle, falls into the same bucket |
| Grouping.SameLabelSameBucket | src/shoppingList.ts:49-78 | two aisles share a label if and only if they share a bucket |
| Grouping.SharedGroups | src/shoppingList.ts:49-60 | "Aisle 07" and "Aisle 7" share "Aisle 7"; null and "Unknown" share "Unknown"; "" is its own group |
| Grouping.MembersLabelled | src/shoppingList.ts:52-60 | a group holds a row if and only if the row is in the input and carries the group's label |
| Grouping.InBucketIsMembers | src/shoppingList.ts:48-62 | a bucket array is the input rows carrying its label, in input order |
| Grouping.FindIndex | src/shoppingList.ts:70 | -1 exactly when no group has the label; otherwise the first group that has it |
| Grouping.FillBuckets | src/shoppingList.ts:48-62 | each key is listed once; each bucket holds the rows of its key in input order and is non-empty; every row is filed |
| Grouping.TextPhase | src/shoppingList.ts:64-67 | the text groups hold their buckets, are in strictly increasing string order, and cover every text key |
| Grouping.SpliceUnknown | src/shoppingList.ts:69-73 | taking the "Unknown" group out leaves only text groups, still in order, and loses no other label |
| Grouping.NumberPhase | src/shoppingList.ts:75-78 | the numbered groups hold their buckets, ascend by number, and cover every numeric key |
| Grouping.AssemblePhase | src/shoppingList.ts:80 | text groups, then numbered groups, then "Unknown" present the input |
| Grouping.GroupAndSort | src/shoppingList.ts:44-81 | the output presents the input: each group holds exactly the rows of its label in input order, every row is covered, and groups are text first (sorted), then numbered (ascending), then "Unknown"; the same holds for the copy at src/reminders.ts:168-205 |
| Grouping.ShownBeforeStrict | src/shoppingList.ts:34-43 | the display order is irreflexive and asymmetric |
| Grouping.DisplayOrderDistinct | src/shoppingList.ts:64-80 | group labels in display order are pairwise distinct |
| Grouping.UnknownLast | src/shoppingList.ts:69-80 | "Unknown" appears at most once, and only as the last group |
| Grouping.PresentsPermutation | src/shoppingList.ts:48-62 | the groups' items, concatenated, are a permutation of the input: each row is in exactly one group |
| Grouping.DisplayOrderUnique | src/shoppingList.ts:34-43 | two display-ordered lists with the same labels have the same labels position by position |
| Grouping.PresentsUnique | src/shoppingList.ts:34-43 | the correct grouping of an input is unique |
| Grouping.ExampleGrouping | src/shoppingList.ts:44-81 | rows with aisles "Aisle 10", "Aisle 2", "Drinks" and null group as "Drinks", "Aisle 2", "Aisle 10", "Unknown" |
| Timestamps.SameDayAlwaysStale | src/reminders.ts:82 | as written, a stored timestamp on the same day as the bound always counts as stale, whatever its time |
| Timestamps.RecentRowRequeued | src/reminders.ts:82 | as written, a row refreshed one hour ago is treated as older than six hours |

## Left out

- The reminders command line (`execAsync`, `JSON.parse` of its output), the
  `fetch` call with its URL, headers, `STORE_ID` and `encodeURIComponent`:
  these are I/O. The lookup is the parameter `fetch`, and the clock `now` is a
  parameter.
- The Express server (src/server.ts) and the catch-all fallbacks that answer
  `{results: []}`: request plumbing.
- Drizzle, SQLite and SQL text. The transaction is one atomic method on the
  map, and a `select` with no `where` is read in an order this model does not
  depend on.
- The text formats of timestamps, apart from module `Timestamps`. Elsewhere
  timestamps are integers and staleness is the intended numeric window.
- async/await and `console` logging. The drain is strictly sequential, with
  no concurrency.
- Grouping.GroupAndSort: text keys are compared by Unicode scalar value.
  JavaScript's default sort compares UTF-16 code units, which differs only
  for characters outside the Basic Multilingual Plane. The library sorts are
  modelled by insertion sorts, with one comparator per source sort.
- Grouping.GroupAndSort: an aisle text that names a property every
  JavaScript object inherits ("constructor", "toString", "valueOf",
  "hasOwnProperty", "\_\_proto\_\_" and the like) is not modelled as the code
  treats it. The text buckets are a plain object literal, so looking up such a
  key finds the inherited value, no array is created, and `push` throws a
  TypeError (src/shoppingList.ts:57-60, src/reminders.ts:181-184). The whole
  presenter then throws and its callers answer `{results: []}`. The model
  files such a row in an ordinary group of its own.
- Text.AisleNumber: here the aisle number is exact. In the code, `parseInt`
  loses precision for digit strings longer than about 15 digits. From 1e21
  upwards the numeric key is written "1e+21", so the label becomes
  "Aisle 1e+21". `parseInt` of that key is 1, both in the sort comparator
  (src/shoppingList.ts:75) and in the bucket lookup `aisles[parseInt(key)]`
  (src/shoppingList.ts:77). Such aisles are outside this model.
- Locate.Decode: only the JSON fields the code reads are modelled. A result
  whose `articleImageSmallUri` is missing (undefined) is not distinguished
  from a present one. A first result that is `null`, as in `{"results":[null]}`,
  is outside the model as well: the code's read of `locationDescription`
  throws a TypeError there (src/locateProduct.ts:33, src/reminders.ts:160), and
  `Locate.Article` cannot represent it. The declared types exclude it
  (src/types.ts:57-59), but the cast that applies them is not checked at run
  time.
- Locate.AisleInfo: the failure value is not the one `getAisleInfo` throws.
  `getAisleInfo` throws a plain `Error` with the status only in its message
  text (src/reminders.ts:150-151), while `locateProduct` throws an `HTTPError`
  with a `status` field (src/locateProduct.ts:23-25). Both are modelled as
  `HttpError(status)`. The decision is the same, and the sync reads only
  whether the lookup failed.
- `ProcessedReminder` (src/types.ts) is declared but unused, so it is not
  modelled.
- src/shoppingList.ts imports `storeReminders` from a module that does not
  export it. Its pipeline is taken to be the same `storeReminders`.
- Sync.SweepByEntry, Sync.ReconcileByEntry, Sync.SyncByEntry,
  Sync.DrainByEntry, Sync.ExistingRowQueuedIff, Sync.NewIdInsertedAndQueued,
  Sync.FailedLookupIsRetried, Sync.QueuedRowSettles and Sync.SelectedDistinct
  assume the snapshot's ids are distinct. With repeated ids the code visits
  an id twice, and the functions Reconciled and Synced model that
  faithfully; only these per-entry statements need distinct ids.
  Sync.SweepLeavesFresh, Sync.ResyncIsQuiet and Sync.ResyncAtSameClockIsQuiet
  instead assume that entries sharing an id share a title.
- Sync.ResyncIsQuiet: the second run must come before the six-hour window
  of any snapshot row has elapsed. "Within six hours of the first run" is
  not enough, because rows the first run left unqueued may already be near
  the end of their window. Sync.QueuedRowSettles gives the six hours after
  the first run for each row that run refreshed. The entries sharing an id
  must also share a title; otherwise such rows are renamed on every run.
  The statement also holds only for the corrected numeric window. With the
  text comparison as written, a second sync re-queues every row stamped on
  the day that "six hours ago" falls on (Timestamps.SameDayAlwaysStale), so
  the code as written is not idempotent then.

## Findings

| source | as written | input that shows it | evidently intended | confidence | as-written member | corrected member |
|---|---|---|---|---|---|---|
| src/reminders.ts:82 | `existingReminder.updated_at! < sixHoursAgo` compares SQLite `CURRENT_TIMESTAMP` text ("2024-05-01 19:00:00") with an ISO string ("2024-05-01T14:00:00.000Z") character by character. On the same day the space sorts before the `T`, so every row stored that day counts as stale. | The clock reads 2024-05-01 20:00 UTC. A row was refreshed at 19:00. It is re-queued and looked up again although it is one hour old. | A row is stale when its update time is more than six hours before now | high, not executed | Timestamps.RecentRowRequeued | Sync.StalenessBoundary |
