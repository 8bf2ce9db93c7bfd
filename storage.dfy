/**
 * One user's encrypted storage as the wallet uses it (src/lib/transactions.js):
 * the index document index.json and one document txs/{txId}.json per
 * transaction, with the operations that read and write them.
 */
module Storage {
  import opened Types
  import opened Indexer
  import opened Cache

  /** The ids the index document lists; a missing or unparseable index lists none. */
  function IndexIds(doc: Doc<seq<TxId>>): seq<TxId> {
    match doc
    case Stored(ids) => ids
    case _ => []
  }

  /**
   * The loop of createTxWithApiData: ask for the page at the number of events
   * gathered so far, 400 at a time, until the gathered events cover the count
   * the latest response declares. The result is the latest response with
   * every gathered event (None once a request is rejected); `offsets` are the
   * offsets requested.
   */
  method FetchAllEvents(txId: TxId, fetch: Fetcher, ghost bound: nat)
    returns (apiData: Option<ApiData>, ghost offsets: seq<nat>)
    requires WellBehaved(fetch, bound)
    ensures apiData == Assemble(fetch, txId, [], bound)
    ensures offsets == Offsets(fetch, txId, [], bound)
  {
    var events: seq<Event> := [];
    apiData := None;
    offsets := [];
    ghost var rest := Offsets(fetch, txId, [], bound);
    while apiData.None? || |events| < apiData.value.eventCount
      invariant apiData.None? ==> events == [] && offsets == []
      invariant Offsets(fetch, txId, [], bound) == offsets + rest
      invariant apiData.Some? ==> apiData.value.eventCount <= bound
      invariant apiData.None? || |events| < apiData.value.eventCount ==>
        && |events| <= bound
        && Assemble(fetch, txId, [], bound) == Assemble(fetch, txId, events, bound)
        && rest == Offsets(fetch, txId, events, bound)
      invariant apiData.Some? && |events| >= apiData.value.eventCount ==>
        && Assemble(fetch, txId, [], bound) == Some(apiData.value.(events := events))
        && rest == []
      decreases if apiData.None? then bound + 1 else if |events| < apiData.value.eventCount then bound - |events| else 0
    {
      var eventOffset := |events|;
      AssembleStep(fetch, txId, events, bound);
      var response := fetch(txId, eventOffset, OffsetLimit);
      assert offsets + rest == (offsets + [eventOffset]) + rest[1..];
      offsets := offsets + [eventOffset];
      rest := rest[1..];
      if response.None? {
        return None, offsets;
      }
      apiData := response;
      events := events + response.value.events;
    }
    apiData := Some(apiData.value.(events := events));
  }

  class TxStore {
    /** index.json */
    var indexDoc: Doc<seq<TxId>>
    /** txs/{txId}.json for each txId (an id not in the map has no document) */
    var txDocs: map<TxId, Doc<TxRecord>>

    constructor (indexDoc: Doc<seq<TxId>>, txDocs: map<TxId, Doc<TxRecord>>)
      ensures this.indexDoc == indexDoc && this.txDocs == txDocs
    {
      this.indexDoc := indexDoc;
      this.txDocs := txDocs;
    }

    /**
     * createTxWithApiData: gather every event of the transaction, attach them
     * to `tx`, and write the result back unless it is still pending.
     */
    method CreateTxWithApiData(txId: TxId, tx: TxRecord, fetch: Fetcher, ghost bound: nat)
      returns (r: Option<TxRecord>)
      requires WellBehaved(fetch, bound)
      modifies this
      ensures r == Fetched(tx, fetch, txId, bound)
      ensures indexDoc == old(indexDoc)
      ensures txDocs == if r.Some? && IsSettled(r.value) then old(txDocs)[txId := Stored(r.value)] else old(txDocs)
    {
      var apiData, offsets := FetchAllEvents(txId, fetch, bound);
      if apiData.None? {
        return None;
      }
      var txWithApiData := tx.(apiData := apiData);
      if apiData.value.txStatus != Pending {
        txDocs := txDocs[txId := Stored(txWithApiData)];
      }
      r := Some(txWithApiData);
    }

    /**
     * getTx / getTxWithStorage: serve a settled stored record, otherwise fetch
     * (a stored record that fails to refresh is retried from `{}`, as the
     * rejection lands in the same catch as a missing document).
     */
    method GetTx(txId: TxId, fetch: Fetcher, ghost bound: nat) returns (r: Option<TxRecord>)
      requires WellBehaved(fetch, bound)
      modifies this
      ensures r == Resolve(Lookup(old(txDocs), txId), fetch, txId, bound)
      ensures txDocs == CacheAfter(old(txDocs), txId, fetch, bound)
      ensures indexDoc == old(indexDoc)
    {
      var doc := Lookup(txDocs, txId);
      if doc.Stored? {
        var tx := doc.value;
        if IsSettled(tx) {
          assert txDocs[txId := Stored(tx)] == txDocs;
          return Some(tx);
        }
        r := CreateTxWithApiData(txId, tx, fetch, bound);
        if r.None? {
          FetchedFailsAlike(tx, EmptyRecord, fetch, txId, bound);
          r := CreateTxWithApiData(txId, EmptyRecord, fetch, bound);
        }
      } else {
        r := CreateTxWithApiData(txId, EmptyRecord, fetch, bound);
      }
    }

    /**
     * saveTxData: append the id to the index (a missing or unparseable index
     * counts as empty; no deduplication), then store `{ data }` as the
     * transaction's document.
     */
    method SaveTxData(data: TxData)
      modifies this
      ensures indexDoc == Stored(IndexIds(old(indexDoc)) + [data.txId])
      ensures txDocs == old(txDocs)[data.txId := Stored(TxRecord(Some(data), None))]
    {
      var indexArray := IndexIds(indexDoc);
      indexArray := indexArray + [data.txId];
      indexDoc := Stored(indexArray);
      txDocs := txDocs[data.txId := Stored(TxRecord(Some(data), None))];
    }

    /**
     * getTxs: resolve every id of the index, in index order. A missing or
     * unparseable index gives no records; a rejected resolution is not caught
     * (the promise is returned, not awaited, inside the try) and fails the
     * whole call, after every resolution has had its effect.
     */
    method GetTxs(fetch: Fetcher, ghost bound: nat) returns (r: Option<seq<TxRecord>>)
      requires WellBehaved(fetch, bound)
      modifies this
      ensures r == ResolveAll(old(txDocs), IndexIds(old(indexDoc)), fetch, bound)
      ensures txDocs == CacheAll(old(txDocs), IndexIds(old(indexDoc)), fetch, bound)
      ensures indexDoc == old(indexDoc)
    {
      var ids := IndexIds(indexDoc);
      var records: seq<TxRecord> := [];
      var failed := false;
      for i := 0 to |ids|
        invariant indexDoc == old(indexDoc)
        invariant txDocs == CacheAll(old(txDocs), ids[..i], fetch, bound)
        invariant ResolveAll(old(txDocs), ids[..i], fetch, bound) == if failed then None else Some(records)
      {
        assert ids[..i + 1][..i] == ids[..i];
        ResolveAfterCachingAll(old(txDocs), ids[i], ids[..i], fetch, bound);
        var record := GetTx(ids[i], fetch, bound);
        if record.None? {
          failed := true;
        } else {
          records := records + [record.value];
        }
      }
      assert ids[..|ids|] == ids;
      r := if failed then None else Some(records);
    }
  }
}
