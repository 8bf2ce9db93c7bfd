/**
 * The indexer seen as a page oracle, and the fetch-until-complete loop of
 * createTxWithApiData (src/lib/transactions.js) stated as functions: which
 * offsets are requested, in which order, and what record they assemble.
 */
module Indexer {
  import opened Types

  /**
   * getTransactionById({ txId, eventOffset, offsetLimit }): the transaction's
   * fields with one page of its events; None when the request is rejected.
   */
  type Fetcher = (TxId, nat, nat) -> Option<ApiData>

  /** The page size every round asks for. */
  const OffsetLimit: nat := 400

  /**
   * What the loop needs of the indexer in order to stop: declared counts stay
   * under `bound`, and a page asked for below the declared count is not empty.
   */
  ghost predicate WellBehaved(fetch: Fetcher, bound: nat) {
    forall txId: TxId, offset: nat :: fetch(txId, offset, OffsetLimit).Some? ==>
      && fetch(txId, offset, OffsetLimit).value.eventCount <= bound
      && (offset < fetch(txId, offset, OffsetLimit).value.eventCount ==>
            |fetch(txId, offset, OffsetLimit).value.events| > 0)
  }

  /** The events of the page fetched at `offset` (none if that request was rejected). */
  function Page(fetch: Fetcher, txId: TxId, offset: nat): seq<Event> {
    match fetch(txId, offset, OffsetLimit)
    case None => []
    case Some(resp) => resp.events
  }

  /** The pages fetched at `offsets`, concatenated in that order. */
  function Pages(fetch: Fetcher, txId: TxId, offsets: seq<nat>): seq<Event> {
    if offsets == [] then [] else Page(fetch, txId, offsets[0]) + Pages(fetch, txId, offsets[1..])
  }

  /**
   * The rest of the loop once `events` are gathered: a round at offset
   * |events|, and another one while the gathered events fall short of the
   * count the latest response declares. The value is the latest response with
   * all gathered events, or None once a request is rejected.
   */
  function Assemble(fetch: Fetcher, txId: TxId, events: seq<Event>, bound: nat): (r: Option<ApiData>)
    requires WellBehaved(fetch, bound) && |events| <= bound
    ensures r.Some? ==> |r.value.events| >= r.value.eventCount
    decreases bound - |events|
  {
    match fetch(txId, |events|, OffsetLimit)
    case None => None
    case Some(resp) =>
      var gathered := events + resp.events;
      if |gathered| < resp.eventCount then Assemble(fetch, txId, gathered, bound)
      else Some(resp.(events := gathered))
  }

  /** The offsets the rounds of Assemble request, in order. */
  function Offsets(fetch: Fetcher, txId: TxId, events: seq<Event>, bound: nat): (r: seq<nat>)
    requires WellBehaved(fetch, bound) && |events| <= bound
    ensures |r| >= 1 && r[0] == |events|
    decreases bound - |events|
  {
    match fetch(txId, |events|, OffsetLimit)
    case None => [|events|]
    case Some(resp) =>
      var gathered := events + resp.events;
      if |gathered| < resp.eventCount then [|events|] + Offsets(fetch, txId, gathered, bound)
      else [|events|]
  }

  /** One round of the loop, unfolded: what Assemble and Offsets are after the request at |events|. */
  lemma AssembleStep(fetch: Fetcher, txId: TxId, events: seq<Event>, bound: nat)
    requires WellBehaved(fetch, bound) && |events| <= bound
    ensures fetch(txId, |events|, OffsetLimit).None? ==>
      Assemble(fetch, txId, events, bound) == None && Offsets(fetch, txId, events, bound) == [|events|]
    ensures fetch(txId, |events|, OffsetLimit).Some? ==>
      fetch(txId, |events|, OffsetLimit).value.eventCount <= bound
    ensures fetch(txId, |events|, OffsetLimit).Some? ==>
      var resp := fetch(txId, |events|, OffsetLimit).value;
      var gathered := events + resp.events;
      if |gathered| < resp.eventCount then
        && |events| < |gathered| <= bound
        && Assemble(fetch, txId, events, bound) == Assemble(fetch, txId, gathered, bound)
        && Offsets(fetch, txId, events, bound) == [|events|] + Offsets(fetch, txId, gathered, bound)
      else
        && Assemble(fetch, txId, events, bound) == Some(resp.(events := gathered))
        && Offsets(fetch, txId, events, bound) == [|events|]
  {
  }

  lemma PagesPrefix(fetch: Fetcher, txId: TxId, o: nat, rest: seq<nat>, i: nat)
    requires 1 <= i <= |rest| + 1
    ensures Pages(fetch, txId, ([o] + rest)[..i]) == Page(fetch, txId, o) + Pages(fetch, txId, rest[..i - 1])
  {
    assert ([o] + rest)[..i][1..] == rest[..i - 1];
  }

  /**
   * The requests of the loop: each asks for the offset equal to the number of
   * events gathered before it, and every request but the last was answered.
   */
  lemma {:induction false} OffsetsCountGathered(fetch: Fetcher, txId: TxId, events: seq<Event>, bound: nat)
    requires WellBehaved(fetch, bound) && |events| <= bound
    ensures var offsets := Offsets(fetch, txId, events, bound);
      && (forall i :: 0 <= i < |offsets| ==> offsets[i] == |events| + |Pages(fetch, txId, offsets[..i])|)
      && (forall i :: 0 <= i < |offsets| - 1 ==> fetch(txId, offsets[i], OffsetLimit).Some?)
    decreases bound - |events|
  {
    var offsets := Offsets(fetch, txId, events, bound);
    var response := fetch(txId, |events|, OffsetLimit);
    if response.Some? && |events + response.value.events| < response.value.eventCount {
      var gathered := events + response.value.events;
      var rest := Offsets(fetch, txId, gathered, bound);
      OffsetsCountGathered(fetch, txId, gathered, bound);
      assert rest == Offsets(fetch, txId, gathered, bound);
      assert offsets == [|events|] + rest;
      assert Page(fetch, txId, |events|) == response.value.events;
      forall i | 0 <= i < |offsets|
        ensures offsets[i] == |events| + |Pages(fetch, txId, offsets[..i])|
      {
        if i == 0 {
          assert offsets[..i] == [];
        } else {
          assert offsets[i] == rest[i - 1] == |gathered| + |Pages(fetch, txId, rest[..i - 1])|;
          PagesPrefix(fetch, txId, |events|, rest, i);
        }
      }
      forall i | 0 <= i < |offsets| - 1
        ensures fetch(txId, offsets[i], OffsetLimit).Some?
      {
        if i > 0 {
          assert i - 1 < |rest| - 1;
          assert offsets[i] == rest[i - 1];
          assert fetch(txId, rest[i - 1], OffsetLimit).Some?;
        }
      }
    } else {
      assert offsets == [|events|];
    }
  }

  /**
   * The record the loop assembles holds the pages in fetch order, after the
   * events already gathered.
   */
  lemma {:induction false} AssembleIsPagesInOrder(fetch: Fetcher, txId: TxId, events: seq<Event>, bound: nat)
    requires WellBehaved(fetch, bound) && |events| <= bound
    ensures Assemble(fetch, txId, events, bound).Some? ==>
      Assemble(fetch, txId, events, bound).value.events == events + Pages(fetch, txId, Offsets(fetch, txId, events, bound))
    decreases bound - |events|
  {
    var offsets := Offsets(fetch, txId, events, bound);
    var response := fetch(txId, |events|, OffsetLimit);
    AssembleStep(fetch, txId, events, bound);
    if response.Some? && |events + response.value.events| < response.value.eventCount {
      var gathered := events + response.value.events;
      var rest := Offsets(fetch, txId, gathered, bound);
      AssembleIsPagesInOrder(fetch, txId, gathered, bound);
      assert offsets[1..] == rest;
      assert Pages(fetch, txId, offsets) == response.value.events + Pages(fetch, txId, rest);
      assert events + Pages(fetch, txId, offsets) == gathered + Pages(fetch, txId, rest);
    } else {
      assert Pages(fetch, txId, offsets) == Page(fetch, txId, |events|) + Pages(fetch, txId, []);
    }
  }

  /**
   * Every field of the assembled record other than the events is the last
   * response's; a failed loop ends on a rejected request.
   */
  lemma {:induction false} AssembleKeepsLastResponse(fetch: Fetcher, txId: TxId, events: seq<Event>, bound: nat)
    requires WellBehaved(fetch, bound) && |events| <= bound
    ensures var offsets := Offsets(fetch, txId, events, bound);
      var last := offsets[|offsets| - 1];
      && (Assemble(fetch, txId, events, bound).None? ==> fetch(txId, last, OffsetLimit).None?)
      && (Assemble(fetch, txId, events, bound).Some? ==>
            var a := Assemble(fetch, txId, events, bound).value;
            fetch(txId, last, OffsetLimit) == Some(a.(events := Page(fetch, txId, last))))
    decreases bound - |events|
  {
    var offsets := Offsets(fetch, txId, events, bound);
    var response := fetch(txId, |events|, OffsetLimit);
    AssembleStep(fetch, txId, events, bound);
    if response.Some? && |events + response.value.events| < response.value.eventCount {
      var gathered := events + response.value.events;
      var rest := Offsets(fetch, txId, gathered, bound);
      AssembleKeepsLastResponse(fetch, txId, gathered, bound);
      assert offsets[|offsets| - 1] == rest[|rest| - 1];
    }
  }

  /**
   * Number of rounds the loop makes for `n` outstanding events when every page
   * is full. This assumes the API client passes `offsetLimit` on as the page
   * size, so that the indexer serves OffsetLimit events per page; with a
   * smaller page size the loop takes more rounds.
   */
  function RoundsNeeded(n: nat): (r: nat)
    ensures r == if n == 0 then 1 else (n + OffsetLimit - 1) / OffsetLimit
  {
    if n <= OffsetLimit then 1 else 1 + RoundsNeeded(n - OffsetLimit)
  }

  function Min(a: nat, b: nat): nat {
    if a <= b then a else b
  }

  /**
   * An indexer that holds `full` and serves at most `limit` of its events from
   * `offset` on: the limit the request carries is assumed to be honoured.
   */
  function Serve(full: ApiData): Fetcher {
    (txId: TxId, offset: nat, limit: nat) =>
      Some(full.(events := full.events[Min(offset, |full.events|)..Min(offset + limit, |full.events|)]))
  }

  lemma ServeIsWellBehaved(full: ApiData)
    requires full.eventCount == |full.events|
    ensures WellBehaved(Serve(full), |full.events|)
  {
    var fetch := Serve(full);
    forall txId: TxId, offset: nat | fetch(txId, offset, OffsetLimit).Some?
      ensures fetch(txId, offset, OffsetLimit).value.eventCount <= |full.events|
      ensures offset < fetch(txId, offset, OffsetLimit).value.eventCount ==>
                |fetch(txId, offset, OffsetLimit).value.events| > 0
    {
      var page := full.events[Min(offset, |full.events|)..Min(offset + OffsetLimit, |full.events|)];
      assert fetch(txId, offset, OffsetLimit) == Some(full.(events := page));
    }
  }

  /**
   * Against an indexer that serves a complete transaction page by page, the
   * loop started after the first k events returns exactly that transaction,
   * in RoundsNeeded(N - k) rounds (one round even for no events).
   */
  lemma {:induction false} AssembleServed(full: ApiData, txId: TxId, k: nat)
    requires full.eventCount == |full.events| && k <= |full.events|
    ensures WellBehaved(Serve(full), |full.events|)
    ensures Assemble(Serve(full), txId, full.events[..k], |full.events|) == Some(full)
    ensures |Offsets(Serve(full), txId, full.events[..k], |full.events|)| == RoundsNeeded(|full.events| - k)
    decreases |full.events| - k
  {
    ServeIsWellBehaved(full);
    var fetch := Serve(full);
    var n := |full.events|;
    var m := Min(k + OffsetLimit, n);
    assert |full.events[..k]| == k;
    assert Min(k, n) == k;
    assert fetch(txId, k, OffsetLimit) == Some(full.(events := full.events[k..m]));
    assert full.events[..k] + full.events[k..m] == full.events[..m];
    if m < n {
      AssembleServed(full, txId, m);
    } else {
      assert full.events[..m] == full.events;
    }
  }
}
