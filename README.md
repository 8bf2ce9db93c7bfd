# stacks-send-many: transaction pipeline and group view, in Dafny

This project models the data logic of the stacks-send-many wallet. The React
components are left out. What is modelled:

- **Fetch until complete** (`createTxWithApiData`). The wallet asks the Stacks
  indexer (`getTransactionById`) for a transaction's events, 400 per request.
  Each request is made at the number of events gathered so far. The loop stops
  once the gathered events cover the `event_count` the latest response
  declares. The record is then written to storage unless the transaction is
  still `pending`.
- **Cache or fetch** (`getTxWithStorage` / `getTx`). A stored record that has
  `apiData` and is no longer pending is served as it is. Anything else is
  fetched again: a record without `apiData`, a pending record, a missing
  document or an unparseable one.
- **Index** (`saveTxData`, `getTxs`). `index.json` lists the saved
  transaction ids. Saving appends to it. Reading resolves every listed id, in
  index order.
- **Live status** (`TxStatus`). This component follows one transaction over
  the indexer's push channel. While it waits it shows the explorer link for
  the id, with `0x` added unless the id already starts with it.
- **Links** (`txUrl`, `resultToStatus`). `txUrl` gives the page of a bare
  transaction id, always putting `0x` in front of it. `resultToStatus` is a
  separate exported function: it reads a contract-call result as a status
  line.
- **Group view** (`SendManyGroupTxs`). `loadTxs` merges the records of a group
  of transactions. The view then shows:
  - the STX transfers, with the owner's first, and their memos looked up as
    the component does (see "## Findings");
  - the memos of a `send-many-memo` call, once for the group or once per
    recipient;
  - abbreviated addresses.

The indexer is a page oracle, `Fetcher = (txId, offset, limit) -> Option<ApiData>`.
`None` is a rejected request. The loop terminates only if the indexer behaves
well (`Indexer.WellBehaved`):
- every declared count stays under a bound;
- a page asked for below the declared count is not empty.

Storage is the class `Storage.TxStore`. It has two fields:
- the index document;
- a map from ids to transaction documents.

Each document is `Missing`, `Unparseable` or `Stored(value)`. Pure
specification functions in `Cache` say what each operation returns and leaves
behind. The methods are proved equal to them.

Modules, in dependency order:

| file | module | content |
|---|---|---|
| types.dfy | Types | events, API records, stored records, documents |
| indexer.dfy | Indexer | page oracle, `Assemble`/`Offsets` (the fetch loop as functions), rounds |
| cache.dfy | Cache | `Resolve` (cache or fetch), what caching leaves behind, `ResolveAll` |
| storage.dfy | Storage | `FetchAllEvents` (the loop) and class `TxStore` (create, get, save, list) |
| links.dfy | Links | `TxUrl`, `NormalizeTxId`, `ResultToStatus` |
| live_status.dfy | LiveStatus | class `TxStatus` (event handler, rendered view) |
| group.dfy | Group | `Merge`, method `LoadTxs` |
| display.dfy | Display | transfer filter, owner-first sort, memo policy, per-recipient memos, `Address` |

## Model

| member | source | states |
|---|---|---|
| Indexer.Assemble | src/lib/transactions.js:97-109 | when the loop ends with a record, it holds at least as many events as its declared `event_count` |
| Indexer.Offsets | src/lib/transactions.js:98-108 | at least one round always runs, and the first asks for offset 0 (the events gathered so far) |
| Indexer.OffsetsCountGathered | src/lib/transactions.js:102-106 | every round asks for the offset equal to the number of events gathered before it, and every round but the last got an answer |
| Indexer.AssembleIsPagesInOrder | src/lib/transactions.js:104-109 | the assembled events are the fetched pages concatenated in fetch order |
| Indexer.AssembleKeepsLastResponse | src/lib/transactions.js:102-109 | every field of the assembled record other than the events is the last response's; a failed load means the last request was rejected |
| Indexer.RoundsNeeded | src/lib/transactions.js:98-108 | the round count for N events at 400 per page is ceil(N/400), with one round when N is 0 |
| Indexer.AssembleServed | src/lib/transactions.js:97-109 | against an indexer serving a complete record in 400-event slices, the loop returns exactly that record after RoundsNeeded rounds |
| Cache.Fetched | src/lib/transactions.js:97-113 | the fetched record keeps the stored `data`, has `apiData`, and its events cover its count |
| Cache.Resolve | src/lib/transactions.js:76-90 | a resolved record always has `apiData` |
| Cache.CacheHitNeedsNoFetch | src/lib/transactions.js:78-83 | a stored settled record is returned unchanged whatever the indexer would answer, so no fetch is made |
| Cache.RefetchKeepsStoredData | src/lib/transactions.js:78-88 | a record without `apiData`, a pending one, and a missing or unparseable document are all refetched; they fail only when the indexer rejects a request; the stored `data` is kept (none for `{}`) |
| Cache.FetchedFailsAlike | src/lib/transactions.js:84-88 | a stored record fails to refresh exactly when the retry from `{}` fails |
| Cache.ResolveAfterCaching | src/lib/transactions.js:80-83 | after any resolution has written its result, resolving any id again gives the same record |
| Cache.ResolveAfterCachingAll | src/lib/transactions.js:80-83 | the same, after any number of resolutions |
| Cache.WrittenOnce | src/lib/transactions.js:110-112 | once a resolution has written a record, resolving that id again writes nothing, whatever the indexer answers |
| Cache.PendingNotWritten | src/lib/transactions.js:110-112 | a transaction that is still pending is never written |
| Cache.ResolveAllInOrder | src/lib/transactions.js:66-70 | listing succeeds exactly when every id resolves, and then gives one record per id, in index order |
| Cache.ResolveAll | src/lib/transactions.js:66-70 | a successful listing has one fetched record per id; ResolveAllInOrder states it succeeds exactly when every id resolves, with each id's own record in order |
| Cache.CacheAfter | src/lib/transactions.js:110-112 | the resolved record is written exactly when it is settled; an unsettled or failed resolution leaves the documents as they were; no other id's document changes |
| Storage.FetchAllEvents | src/lib/transactions.js:98-108 | the loop returns what Assemble specifies, after requesting exactly the offsets of Offsets |
| Storage.TxStore.CreateTxWithApiData | src/lib/transactions.js:97-114 | returns the fetched record; the document is written if and only if the final status is not pending; the index is untouched |
| Storage.TxStore.GetTx | src/lib/transactions.js:76-95 | returns Resolve of the stored document; the documents afterwards are CacheAfter; the index is untouched |
| Storage.TxStore.SaveTxData | src/lib/transactions.js:44-58 | the id is appended to the index, with no deduplication; a missing or unparseable index counts as empty; the document becomes `{ data }` |
| Storage.TxStore.GetTxs | src/lib/transactions.js:60-75 | gives the index's records in index order (none for a missing index); fails if any resolution fails; every resolution still takes effect |
| Links.TxUrl | src/lib/transactions.js:34-40 | the link carries the id right after a `0x`, at a fixed position for each network; TxUrlInjective states that different ids give different links |
| Links.TxUrlInjective | src/lib/transactions.js:34-40 | different transaction ids never share a page link |
| Links.NormalizeTxId | src/lib/transactions.js:161 | the shown id always starts with `0x` and has the same bare id; a prefixed id is kept as it is |
| Links.NormalizeIdempotent | src/lib/transactions.js:161 | normalising twice is normalising once |
| Links.StatusLinkIsTxUrl | src/lib/transactions.js:161-169 | TxStatus's explorer link, for a prefixed or unprefixed id, is the page txUrl gives for the bare id |
| Links.ResultToStatus | src/lib/transactions.js:7-16 | a transaction link exactly for a 66-character string starting with a quote, carrying the 64 characters after the quote; an error object shows its JSON; any other string shows as it is |
| Links.QuotedTxIdIsLinked | src/lib/transactions.js:7-10 | a quoted 64-character transaction id becomes a link to that transaction |
| LiveStatus.TxStatus.constructor | src/lib/transactions.js:116-137 | with an id the component is loading and subscribes; without one nothing starts |
| LiveStatus.TxStatus.OnEvent | src/lib/transactions.js:139-154 | a pending event changes nothing; any other event ends loading, unsubscribes once more, and sets the result: the fetched `tx_result` on success, none otherwise; a rejected fetch after success leaves everything as it was |
| LiveStatus.TxStatus.Rendered | src/lib/transactions.js:157-177 | nothing without an id; exactly while loading, the explorer link and the id normalised by NormalizeTxId; afterwards the prefixed result's `repr` when there is a result, and a blank view otherwise |
| LiveStatus.PendingThenSuccess | src/lib/transactions.js:139-177 | pending, pending, then success ends with the fetched result after one unsubscribe, and the view shows that result's `repr` (blank without one) |
| LiveStatus.AbortDirectly | src/lib/transactions.js:148-153 | an abort ends loading without a result, and the view is blank |
| LiveStatus.WithoutId | src/lib/transactions.js:120-159 | without an id there is no subscription and nothing is rendered |
| Group.Merge | src/components/SendManyGroupTxs.js:21-26 | the first member's events come first and its count only grows; MergeConcatenatesAndSums and MergeKeepsFirstFields give the whole merged record |
| Group.MergeConcatenatesAndSums | src/components/SendManyGroupTxs.js:21-26 | the merged events are the members' events concatenated in list order, and the merged count is the sum of their counts |
| Group.MergeKeepsFirstFields | src/components/SendManyGroupTxs.js:19-27 | every merged field other than events and count is the first member's |
| Group.MergeOfCompleteIsComplete | src/components/SendManyGroupTxs.js:23-24 | merging complete records gives a complete record |
| Group.FailedMemberFailsAll | src/components/SendManyGroupTxs.js:18-33 | one member that cannot be fetched fails the whole group |
| Group.LoadTxs | src/components/SendManyGroupTxs.js:14-34 | an empty list loads nothing; if any member fails the status is "Failed to get transactions" and nothing is merged; otherwise the result is the first member's record with the members' events merged in order |
| Display.Transfers | src/components/SendManyGroupTxs.js:39-44 | only transfers are kept, and the list never grows |
| Display.TransfersKeepEveryTransfer | src/components/SendManyGroupTxs.js:39-44 | each transfer is kept as often as it occurs, and nothing else is kept |
| Display.TransfersOfConcat | src/components/SendManyGroupTxs.js:39-44 | the transfers of a merged list are the members' transfers, member by member |
| Display.SortOwnerFirst | src/components/SendManyGroupTxs.js:45-53 | the sort is in place, gives a permutation of the rows, and puts no owner row after another recipient's row |
| Display.Rows | src/components/SendManyGroupTxs.js:89-96 | the corrected memo pairing has one row per transfer; each transfer gets the memo logged right after it (RowsCoverTransfers, MergedRowsAreMembersRows) |
| Display.RowsCoverTransfers | src/components/SendManyGroupTxs.js:89-101 | one row per transfer, in order, with that transfer's recipient and amount |
| Display.RowsOfGroup | src/components/SendManyGroupTxs.js:91-96 | the memo pairing of a concatenation is the pairing of its parts, when the first part does not end with a transfer |
| Display.MergedRowsAreMembersRows | src/components/SendManyGroupTxs.js:91-96 | in a merged group each transfer is shown with a memo from its own transaction: the rows are each member's own rows |
| Display.MemoAsWritten | src/components/SendManyGroupTxs.js:95 | the memo read at `event_index + 1`; when every event's index is its position in the list, it is the memo logged right after the transfer |
| Display.RowsAsWritten | src/components/SendManyGroupTxs.js:89-96 | rendering succeeds exactly when every transfer's lookup at `event_index + 1` finds a contract log; then there is one row per transfer, in order, with its recipient, amount and that memo |
| Display.RowsAsWrittenForOneTransaction | src/components/SendManyGroupTxs.js:91-96 | for one transaction's own events the lookup at `event_index + 1` gives the memo logged right after each transfer |
| Display.MergedRowsAreMembersRowsAsWritten | src/components/SendManyGroupTxs.js:21-26 | for a group of memo transactions each indexed from 0, the corrected rows of the merged record are, member by member, the rows the component computes for each transaction on its own |
| Display.MergedMemoCounterexample | src/components/SendManyGroupTxs.js:95 | for two merged memo transactions the as-written lookup shows the first memo on the second transfer |
| Display.Distinct | src/components/SendManyGroupTxs.js:56-61 | the memos are duplicate-free, hold exactly the hexes of the list, and begin with its first hex |
| Display.DistinctInFirstOccurrenceOrder | src/components/SendManyGroupTxs.js:56-61 | the memos are in the order of their first occurrence |
| Display.OneDistinctIffAllEqual | src/components/SendManyGroupTxs.js:64 | there is a single memo exactly when the list is non-empty and all its entries are equal |
| Display.SeveralDistinctIffTwoDiffer | src/components/SendManyGroupTxs.js:64 | there are several memos exactly when two entries differ |
| Display.OddPositioned | src/components/SendManyGroupTxs.js:59 | the events at odd positions, in order |
| Display.MemoHexes | src/components/SendManyGroupTxs.js:59 | the memo hexes exist exactly when every odd-positioned event is a contract log, and are their hexes in order |
| Display.Policy | src/components/SendManyGroupTxs.js:54-64 | no contract call makes rendering throw; no memo is shown exactly when the call is not `send-many-memo`; a memo call with an odd-positioned event that is not a log, or with no memo, throws; a memo shown once is one of the memos; SharedMemoIsEveryMemo and PerRecipientMeansTwoMemos give both directions |
| Display.SharedMemoIsEveryMemo | src/components/SendManyGroupTxs.js:54-85 | one memo is shown for the group exactly when the call is a `send-many-memo` call with at least one memo, all of them equal to it |
| Display.PerRecipientMeansTwoMemos | src/components/SendManyGroupTxs.js:54-64 | memos are shown per recipient exactly when the call is a `send-many-memo` call with two differing memos |
| Display.ShownRows | src/components/SendManyGroupTxs.js:54-96 | rendering throws exactly when the memo policy does or a per-recipient lookup at `event_index + 1` is not a log; otherwise one row per transfer, in order, with its recipient and amount, and with memos per recipient the memo read at `event_index + 1` of the whole list, else none |
| Display.MergedGroupShowsFirstMemoTwice | src/components/SendManyGroupTxs.js:64-96 | for the merged group of two memo transactions the view shows memos per recipient, and the second recipient's row carries the first memo |
| Display.DisplayRows | src/components/SendManyGroupTxs.js:39-102 | when rendering throws there are no rows; otherwise the rendered rows are a permutation of the shown rows with the owner's first |
| Display.Address | src/components/SendManyGroupTxs.js:144-150 | for 5 or more characters: the first five, "...", the last five; a shorter address is shown whole before the "..." |
| Display.ShortAddressTail | src/components/SendManyGroupTxs.js:147 | for an address of 3 or 4 characters the tail starts at twice the length minus 5, not at the start |

## Left out

- React rendering is not modelled: JSX, the spinner's class list, the `StxTransfer` markup, the `txIdToStatus` element, and the notices "Transaction not found on server" and "No transactions found". A resolved record always has `apiData`, so the first notice cannot appear.
- `console.log` calls are left out.
- `src/App.js` is not part of this model.
- I/O is a parameter or a field:
  - the indexer is the `Fetcher` oracle, and the ghost `bound` of `WellBehaved` is the assumption the loop needs in order to stop;
  - storage is the `TxStore` fields;
  - the push channel delivers events through `OnEvent`, and whether connecting succeeds is a constructor parameter.
- A failed storage read is a `Missing` document. Failed storage writes are not modelled.
- Concurrency is sequential in the model:
  - `Promise.all` in `getTxs` runs its resolutions one after the other, in index order;
  - concurrent `saveTxData` calls (the lost-update race on the index) are not modelled;
  - the interleaving of asynchronous update handlers is not modelled;
  - TxStatus's subscription has no teardown when the id changes or the component unmounts.
- The indexer is deterministic. A transient failure that a second request from `{}` would survive is not modelled. The retry is still made, and it fails exactly as the first request did (`Cache.FetchedFailsAlike`).
- Memo decoding (`hexToCV(...).buffer.toString()`) and `cvToHex`/`hexToCV` are not modelled. Memos are carried as their hex strings, and a hex that does not decode is not modelled.
- Amount formatting (division by 10^6 and `toLocaleString`) is floating point, and is left out.
- Links.ResultToStatus: a result that is neither a string nor an object with `error` (where `startsWith` or `toString` throws) is not modelled.
- Display.SortOwnerFirst: states only the owner-first partition and the permutation. Within each part the comparator returns a boolean (line 49), so the order is up to the JavaScript engine.
- Group.LoadTxs: does not state the stored documents after a member fails. The members fetched before the failure have written their records.
- An indexer that answers an empty page below the count it declares makes the fetch loop repeat the same request forever. The model assumes `WellBehaved` and does not model that run.
- The API client that sends `getTransactionById` is not part of this model. The model assumes it passes `offsetLimit` on as the page size, so that pages hold 400 events (`Indexer.Serve`, `Indexer.RoundsNeeded`).
- Indexer.RoundsNeeded: a transaction with no events still takes one round. A figure of ceil(N/400) rounds would give none. The code, which always runs a first round, is followed.

## Findings

| source | as written | input that shows it | evidently intended | confidence | as-written member | corrected member |
|---|---|---|---|---|---|---|
| src/components/SendManyGroupTxs.js:95 | the per-recipient memo of a transfer is read at `event_index + 1` of the merged event list, but `event_index` counts within the transfer's own transaction | a group of two `send-many-memo` transactions, each with a transfer (index 0) followed by its memo log (index 1), memos `0x01` and `0x02`: the second transfer is shown with `0x01` | each transfer shows the memo logged right after it in its own transaction (`0x02` here) | not executed | Display.MergedMemoCounterexample | Display.MergedRowsAreMembersRows |
