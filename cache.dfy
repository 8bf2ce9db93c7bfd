/**
 * The cache-or-fetch decision of getTxWithStorage (src/lib/transactions.js)
 * as pure functions over the transaction documents, and what caching does to
 * later resolutions.
 */
module Cache {
  import opened Types
  import opened Indexer

  /** The document stored as txs/{txId}.json. */
  function Lookup(docs: map<TxId, Doc<TxRecord>>, txId: TxId): Doc<TxRecord> {
    if txId in docs then docs[txId] else Missing
  }

  /**
   * The value of createTxWithApiData: `tx` with apiData replaced by every
   * event of the transaction and the last response's fields, or None when the
   * indexer rejected a request.
   */
  function Fetched(tx: TxRecord, fetch: Fetcher, txId: TxId, bound: nat): (r: Option<TxRecord>)
    requires WellBehaved(fetch, bound)
    ensures r.Some? ==> r.value.data == tx.data && r.value.apiData.Some?
    ensures r.Some? ==> |r.value.apiData.value.events| >= r.value.apiData.value.eventCount
  {
    match Assemble(fetch, txId, [], bound)
    case None => None
    case Some(a) => Some(tx.(apiData := Some(a)))
  }

  /**
   * The value of getTxWithStorage for the document found: a settled record as
   * stored, a record without apiData or still pending fetched afresh, and a
   * missing or unparseable document fetched as `{}`.
   */
  function Resolve(doc: Doc<TxRecord>, fetch: Fetcher, txId: TxId, bound: nat): (r: Option<TxRecord>)
    requires WellBehaved(fetch, bound)
    ensures r.Some? ==> r.value.apiData.Some?
  {
    match doc
    case Stored(tx) => if IsSettled(tx) then Some(tx) else Fetched(tx, fetch, txId, bound)
    case _ => Fetched(EmptyRecord, fetch, txId, bound)
  }

  /**
   * The documents after resolving `txId`: the resolved record is written back
   * exactly when it is settled; no other document changes.
   */
  function CacheAfter(docs: map<TxId, Doc<TxRecord>>, txId: TxId, fetch: Fetcher, bound: nat): (r: map<TxId, Doc<TxRecord>>)
    requires WellBehaved(fetch, bound)
    ensures forall id :: id != txId ==> Lookup(r, id) == Lookup(docs, id)
    ensures Lookup(r, txId) != Lookup(docs, txId) ==>
      && Lookup(r, txId).Stored? && IsSettled(Lookup(r, txId).value)
      && Resolve(Lookup(docs, txId), fetch, txId, bound) == Some(Lookup(r, txId).value)
    ensures var resolved := Resolve(Lookup(docs, txId), fetch, txId, bound);
      resolved.Some? && IsSettled(resolved.value) ==> Lookup(r, txId) == Stored(resolved.value)
    ensures var resolved := Resolve(Lookup(docs, txId), fetch, txId, bound);
      resolved.None? || !IsSettled(resolved.value) ==> r == docs
  {
    match Resolve(Lookup(docs, txId), fetch, txId, bound)
    case Some(tx) => if IsSettled(tx) then docs[txId := Stored(tx)] else docs
    case None => docs
  }

  /** The documents after resolving each of `ids` in turn. */
  function CacheAll(docs: map<TxId, Doc<TxRecord>>, ids: seq<TxId>, fetch: Fetcher, bound: nat): map<TxId, Doc<TxRecord>>
    requires WellBehaved(fetch, bound)
  {
    if ids == [] then docs
    else CacheAfter(CacheAll(docs, ids[..|ids| - 1], fetch, bound), ids[|ids| - 1], fetch, bound)
  }

  /** The records of `ids` resolved against `docs`, in order; None if any of them fails. */
  function ResolveAll(docs: map<TxId, Doc<TxRecord>>, ids: seq<TxId>, fetch: Fetcher, bound: nat): (r: Option<seq<TxRecord>>)
    requires WellBehaved(fetch, bound)
    ensures r.Some? ==> |r.value| == |ids| && forall i :: 0 <= i < |ids| ==> r.value[i].apiData.Some?
  {
    if ids == [] then Some([])
    else match (ResolveAll(docs, ids[..|ids| - 1], fetch, bound), Resolve(Lookup(docs, ids[|ids| - 1]), fetch, ids[|ids| - 1], bound))
      case (Some(rs), Some(r)) => Some(rs + [r])
      case _ => None
  }

  /**
   * A settled stored record is served as it is: the value does not depend on
   * the indexer at all, so no request is made.
   */
  lemma CacheHitNeedsNoFetch(tx: TxRecord, fetch1: Fetcher, fetch2: Fetcher, txId: TxId, bound1: nat, bound2: nat)
    requires WellBehaved(fetch1, bound1) && WellBehaved(fetch2, bound2)
    requires IsSettled(tx)
    ensures Resolve(Stored(tx), fetch1, txId, bound1) == Resolve(Stored(tx), fetch2, txId, bound2) == Some(tx)
  {
  }

  /**
   * A stored record without apiData, or still pending, is fetched afresh and
   * keeps what the wallet stored with it; a missing or unparseable document
   * is fetched as `{}` and fails only when the indexer rejects a request.
   */
  lemma RefetchKeepsStoredData(doc: Doc<TxRecord>, fetch: Fetcher, txId: TxId, bound: nat)
    requires WellBehaved(fetch, bound)
    requires !(doc.Stored? && IsSettled(doc.value))
    ensures Resolve(doc, fetch, txId, bound).None? <==> Assemble(fetch, txId, [], bound).None?
    ensures Resolve(doc, fetch, txId, bound).Some? ==>
      && Resolve(doc, fetch, txId, bound).value.data == (if doc.Stored? then doc.value.data else None)
      && Resolve(doc, fetch, txId, bound).value.apiData == Assemble(fetch, txId, [], bound)
  {
  }

  /**
   * What createTxWithApiData produces does not depend on the prior record
   * beyond its stored data; in particular it fails for one exactly when it
   * fails for `{}`.
   */
  lemma FetchedFailsAlike(tx1: TxRecord, tx2: TxRecord, fetch: Fetcher, txId: TxId, bound: nat)
    requires WellBehaved(fetch, bound)
    ensures Fetched(tx1, fetch, txId, bound).None? <==> Fetched(tx2, fetch, txId, bound).None?
  {
  }

  /**
   * Resolving an id again after the documents were updated by resolving any
   * id gives the same record: a written-back record is settled, so it is
   * served as the value it was written with.
   */
  lemma ResolveAfterCaching(docs: map<TxId, Doc<TxRecord>>, txId: TxId, other: TxId, fetch: Fetcher, bound: nat)
    requires WellBehaved(fetch, bound)
    ensures Resolve(Lookup(CacheAfter(docs, other, fetch, bound), txId), fetch, txId, bound)
         == Resolve(Lookup(docs, txId), fetch, txId, bound)
  {
  }

  lemma {:induction false} ResolveAfterCachingAll(docs: map<TxId, Doc<TxRecord>>, txId: TxId, ids: seq<TxId>, fetch: Fetcher, bound: nat)
    requires WellBehaved(fetch, bound)
    ensures Resolve(Lookup(CacheAll(docs, ids, fetch, bound), txId), fetch, txId, bound)
         == Resolve(Lookup(docs, txId), fetch, txId, bound)
  {
    if ids != [] {
      ResolveAfterCachingAll(docs, txId, ids[..|ids| - 1], fetch, bound);
      ResolveAfterCaching(CacheAll(docs, ids[..|ids| - 1], fetch, bound), txId, ids[|ids| - 1], fetch, bound);
    }
  }

  /**
   * Once a resolution has written a settled record, resolving the same id
   * again, whatever the indexer now answers, writes nothing: a transaction is
   * stored on the call that first sees it settled and not after.
   */
  lemma WrittenOnce(docs: map<TxId, Doc<TxRecord>>, txId: TxId, fetch1: Fetcher, bound1: nat, fetch2: Fetcher, bound2: nat)
    requires WellBehaved(fetch1, bound1) && WellBehaved(fetch2, bound2)
    requires Lookup(CacheAfter(docs, txId, fetch1, bound1), txId) != Lookup(docs, txId)
    ensures CacheAfter(CacheAfter(docs, txId, fetch1, bound1), txId, fetch2, bound2) == CacheAfter(docs, txId, fetch1, bound1)
  {
  }

  /** A pending transaction is never written. */
  lemma PendingNotWritten(docs: map<TxId, Doc<TxRecord>>, txId: TxId, fetch: Fetcher, bound: nat)
    requires WellBehaved(fetch, bound)
    requires Assemble(fetch, txId, [], bound).Some? && IsPending(Assemble(fetch, txId, [], bound).value)
    ensures CacheAfter(docs, txId, fetch, bound) == docs
  {
  }

  /** Resolving one more id updates the documents left by a prefix by that id's resolution. */
  lemma CacheAllExtend(docs: map<TxId, Doc<TxRecord>>, ids: seq<TxId>, i: nat, fetch: Fetcher, bound: nat)
    requires WellBehaved(fetch, bound)
    requires i < |ids|
    ensures CacheAll(docs, ids[..i + 1], fetch, bound) == CacheAfter(CacheAll(docs, ids[..i], fetch, bound), ids[i], fetch, bound)
  {
    assert ids[..i + 1][..i] == ids[..i];
  }

  /** Resolving one more id extends the records of a prefix by that id's record. */
  lemma ResolveAllExtend(docs: map<TxId, Doc<TxRecord>>, ids: seq<TxId>, i: nat, rs: seq<TxRecord>, r: TxRecord, fetch: Fetcher, bound: nat)
    requires WellBehaved(fetch, bound)
    requires i < |ids|
    requires ResolveAll(docs, ids[..i], fetch, bound) == Some(rs)
    requires Resolve(Lookup(docs, ids[i]), fetch, ids[i], bound) == Some(r)
    ensures ResolveAll(docs, ids[..i + 1], fetch, bound) == Some(rs + [r])
  {
    assert ids[..i + 1][..i] == ids[..i];
  }

  /**
   * ResolveAll succeeds exactly when every id resolves, and then holds one
   * record per id, in the order of `ids`.
   */
  lemma {:induction false} ResolveAllInOrder(docs: map<TxId, Doc<TxRecord>>, ids: seq<TxId>, fetch: Fetcher, bound: nat)
    requires WellBehaved(fetch, bound)
    ensures ResolveAll(docs, ids, fetch, bound).Some? <==>
      forall i :: 0 <= i < |ids| ==> Resolve(Lookup(docs, ids[i]), fetch, ids[i], bound).Some?
    ensures ResolveAll(docs, ids, fetch, bound).Some? ==>
      && |ResolveAll(docs, ids, fetch, bound).value| == |ids|
      && forall i :: 0 <= i < |ids| ==>
           Some(ResolveAll(docs, ids, fetch, bound).value[i]) == Resolve(Lookup(docs, ids[i]), fetch, ids[i], bound)
  {
    if ids != [] {
      var init := ids[..|ids| - 1];
      ResolveAllInOrder(docs, init, fetch, bound);
      assert forall i :: 0 <= i < |init| ==> init[i] == ids[i];
    }
  }
}
