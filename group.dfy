/**
 * loadTxs of SendManyGroupTxs (src/components/SendManyGroupTxs.js): the
 * records of a group of transactions merged into one, whose events are all
 * members' events in list order.
 */
module Group {
  import opened Types
  import opened Indexer
  import opened Cache
  import opened Storage

  const FailedStatus: string := "Failed to get transactions"

  /** What loading a group leaves behind: nothing (no ids), the merged record, or a failure status. */
  datatype GroupLoad = NotLoaded | Loaded(tx: TxRecord) | LoadFailed(status: string)

  /** Every member's events, in member order. */
  function AllEvents(members: seq<ApiData>): seq<Event> {
    if members == [] then [] else members[0].events + AllEvents(members[1..])
  }

  /** The members' declared counts, added up. */
  function TotalCount(members: seq<ApiData>): nat {
    if members == [] then 0 else members[0].eventCount + TotalCount(members[1..])
  }

  /**
   * The record the merge loop builds: the first member, with each later
   * member's events appended and its count added, one member at a time.
   */
  function Merge(members: seq<ApiData>): (r: ApiData)
    requires |members| > 0
    ensures members[0].events <= r.events && members[0].eventCount <= r.eventCount
  {
    if |members| == 1 then members[0]
    else
      var merged := Merge(members[..|members| - 1]);
      var next := members[|members| - 1];
      merged.(events := merged.events + next.events, eventCount := merged.eventCount + next.eventCount)
  }

  lemma {:induction false} AllEventsAppend(members: seq<ApiData>, next: ApiData)
    ensures AllEvents(members + [next]) == AllEvents(members) + next.events
    ensures TotalCount(members + [next]) == TotalCount(members) + next.eventCount
  {
    if members != [] {
      assert (members + [next])[1..] == members[1..] + [next];
      AllEventsAppend(members[1..], next);
    } else {
      assert [next][1..] == [];
    }
  }

  /**
   * The merged events are the members' events concatenated in list order,
   * and the merged count is the sum of the members' counts.
   */
  lemma {:induction false} MergeConcatenatesAndSums(members: seq<ApiData>)
    requires |members| > 0
    ensures Merge(members).events == AllEvents(members)
    ensures Merge(members).eventCount == TotalCount(members)
  {
    if |members| == 1 {
      assert members[1..] == [];
    } else {
      var init := members[..|members| - 1];
      MergeConcatenatesAndSums(init);
      AllEventsAppend(init, members[|members| - 1]);
      assert init + [members[|members| - 1]] == members;
    }
  }

  /** Every merged field other than the events and their count is the first member's. */
  lemma {:induction false} MergeKeepsFirstFields(members: seq<ApiData>)
    requires |members| > 0
    ensures Merge(members).(events := members[0].events, eventCount := members[0].eventCount) == members[0]
  {
    if |members| > 1 {
      MergeKeepsFirstFields(members[..|members| - 1]);
    }
  }

  /** Merging complete records (as many events as declared) gives a complete record. */
  lemma {:induction false} MergeOfCompleteIsComplete(members: seq<ApiData>)
    requires |members| > 0
    requires forall i :: 0 <= i < |members| ==> |members[i].events| == members[i].eventCount
    ensures |Merge(members).events| == Merge(members).eventCount
  {
    if |members| > 1 {
      MergeOfCompleteIsComplete(members[..|members| - 1]);
    }
  }

  predicate AllFetched(rs: seq<TxRecord>) {
    forall i :: 0 <= i < |rs| ==> rs[i].apiData.Some?
  }

  function ApiDataOf(rs: seq<TxRecord>): (members: seq<ApiData>)
    requires AllFetched(rs)
    ensures |members| == |rs|
    ensures forall i :: 0 <= i < |rs| ==> members[i] == rs[i].apiData.value
  {
    if rs == [] then [] else ApiDataOf(rs[..|rs| - 1]) + [rs[|rs| - 1].apiData.value]
  }

  /** One step of the merge loop: the next member's events appended, its count added. */
  lemma MergeAppend(members: seq<ApiData>, next: ApiData)
    requires |members| > 0
    ensures Merge(members + [next]) ==
      Merge(members).(events := Merge(members).events + next.events,
                      eventCount := Merge(members).eventCount + next.eventCount)
  {
    assert (members + [next])[..|members|] == members;
  }

  /** Adding a fetched record to the resolved ones adds its apiData to the members. */
  lemma ApiDataOfAppend(rs: seq<TxRecord>, next: TxRecord)
    requires AllFetched(rs) && next.apiData.Some?
    ensures AllFetched(rs + [next])
    ensures ApiDataOf(rs + [next]) == ApiDataOf(rs) + [next.apiData.value]
  {
    assert (rs + [next])[..|rs|] == rs;
  }

  /** One member that cannot be resolved makes the whole group fail. */
  lemma FailedMemberFailsAll(docs: map<TxId, Doc<TxRecord>>, ids: seq<TxId>, i: nat, fetch: Fetcher, bound: nat)
    requires WellBehaved(fetch, bound)
    requires i < |ids| && Resolve(Lookup(docs, ids[i]), fetch, ids[i], bound).None?
    ensures ResolveAll(docs, ids, fetch, bound).None?
  {
    ResolveAllInOrder(docs, ids, fetch, bound);
  }

  /**
   * The state of the merge loop after `i` members: they resolved to
   * `resolved`, and `merged` is their merge.
   */
  ghost predicate MergedSoFar(docs: map<TxId, Doc<TxRecord>>, txList: seq<TxId>, i: nat, resolved: seq<TxRecord>,
                              merged: ApiData, fetch: Fetcher, bound: nat)
    requires WellBehaved(fetch, bound)
  {
    && 0 < i <= |txList| && |resolved| == i && AllFetched(resolved)
    && ResolveAll(docs, txList[..i], fetch, bound) == Some(resolved)
    && merged == Merge(ApiDataOf(resolved))
  }

  /** One round of the merge loop keeps MergedSoFar. */
  lemma MergeRound(docs: map<TxId, Doc<TxRecord>>, txList: seq<TxId>, i: nat, resolved: seq<TxRecord>,
                   merged: ApiData, next: TxRecord, fetch: Fetcher, bound: nat)
    requires WellBehaved(fetch, bound) && MergedSoFar(docs, txList, i, resolved, merged, fetch, bound)
    requires i < |txList| && Resolve(Lookup(docs, txList[i]), fetch, txList[i], bound) == Some(next)
    ensures next.apiData.Some? && (resolved + [next])[0] == resolved[0]
    ensures MergedSoFar(docs, txList, i + 1, resolved + [next],
      merged.(events := merged.events + next.apiData.value.events,
              eventCount := merged.eventCount + next.apiData.value.eventCount), fetch, bound)
  {
    ResolveAllExtend(docs, txList, i, resolved, next, fetch, bound);
    ApiDataOfAppend(resolved, next);
    MergeAppend(ApiDataOf(resolved), next.apiData.value);
  }

  /** The first member starts the merge loop's state. */
  lemma MergeStart(docs: map<TxId, Doc<TxRecord>>, txList: seq<TxId>, first: TxRecord, fetch: Fetcher, bound: nat)
    requires WellBehaved(fetch, bound)
    requires 0 < |txList| && Resolve(Lookup(docs, txList[0]), fetch, txList[0], bound) == Some(first)
    ensures first.apiData.Some? && MergedSoFar(docs, txList, 1, [first], first.apiData.value, fetch, bound)
  {
    assert ResolveAll(docs, txList[..1], fetch, bound) == Some([first]) by {
      assert txList[..0] == [];
      ResolveAllExtend(docs, txList, 0, [], first, fetch, bound);
      assert [] + [first] == [first];
    }
    assert ApiDataOf([first]) == [first.apiData.value];
  }

  /**
   * The effect of loadTxs for a non-empty `txList`: fetch each member in
   * order with getTx, append its events and add its count to the first
   * member's record. If any fetch fails the group is not set and the status
   * becomes FailedStatus; nothing is merged partially. An empty list loads
   * nothing.
   */
  method LoadTxs(store: TxStore, txList: seq<TxId>, fetch: Fetcher, ghost bound: nat) returns (outcome: GroupLoad)
    requires WellBehaved(fetch, bound)
    modifies store
    ensures store.indexDoc == old(store.indexDoc)
    ensures |txList| == 0 ==> outcome == NotLoaded && store.txDocs == old(store.txDocs)
    ensures |txList| > 0 ==>
      match ResolveAll(old(store.txDocs), txList, fetch, bound)
      case None => outcome == LoadFailed(FailedStatus)
      case Some(rs) =>
        && |rs| == |txList| && AllFetched(rs)
        && outcome == Loaded(rs[0].(apiData := Some(Merge(ApiDataOf(rs)))))
        && store.txDocs == CacheAll(old(store.txDocs), txList, fetch, bound)
  {
    if |txList| == 0 {
      return NotLoaded;
    }
    ghost var docs := store.txDocs;
    var first := store.GetTx(txList[0], fetch, bound);
    if first.None? {
      FailedMemberFailsAll(docs, txList, 0, fetch, bound);
      return LoadFailed(FailedStatus);
    }
    var firstTx := first.value;
    MergeStart(docs, txList, firstTx, fetch, bound);
    var merged := firstTx.apiData.value;
    ghost var resolved := [firstTx];
    assert txList[..1] == [txList[0]];
    for i := 1 to |txList|
      invariant store.indexDoc == old(store.indexDoc)
      invariant store.txDocs == CacheAll(docs, txList[..i], fetch, bound)
      invariant MergedSoFar(docs, txList, i, resolved, merged, fetch, bound) && resolved[0] == firstTx
    {
      CacheAllExtend(docs, txList, i, fetch, bound);
      ResolveAfterCachingAll(docs, txList[i], txList[..i], fetch, bound);
      var transaction := store.GetTx(txList[i], fetch, bound);
      if transaction.None? {
        FailedMemberFailsAll(docs, txList, i, fetch, bound);
        return LoadFailed(FailedStatus);
      }
      MergeRound(docs, txList, i, resolved, merged, transaction.value, fetch, bound);
      merged := merged.(events := merged.events + transaction.value.apiData.value.events,
                        eventCount := merged.eventCount + transaction.value.apiData.value.eventCount);
      resolved := resolved + [transaction.value];
    }
    assert txList[..|txList|] == txList;
    outcome := Loaded(firstTx.(apiData := Some(merged)));
  }
}
