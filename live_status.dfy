/**
 * TxStatus (src/lib/transactions.js) without its React parts: the state the
 * component keeps while it follows one transaction over the indexer's push
 * channel, and what it renders from that state.
 */
module LiveStatus {
  import opened Types
  import opened Links

  /** The component's subscription: never opened, open, or closed by unsubscribe. */
  datatype Subscription = NotSubscribed | Open | Closed

  /** What TxStatus renders besides its spinner. */
  datatype View =
    | Nothing                               // no id: the component renders null
    | Checking(link: string, shownId: string) // waiting: the explorer link
    | Finished(prefix: string, repr: string)  // done with a result
    | Blank                                  // done without a result

  /** `status.startsWith('abort')` */
  predicate IsAbort(status: string) {
    |status| >= 5 && status[..5] == "abort"
  }

  class TxStatus {
    /** The `txId` prop; "" stands for no id. */
    const txId: string
    const resultPrefix: string
    var loading: bool
    var result: Option<TxResult>
    var subscription: Subscription
    var unsubscribeCalls: nat

    /**
     * Mounting with an id starts loading and subscribes for updates;
     * `channelOpens` says whether connecting and subscribing succeed (when
     * they fail the error is only logged and loading never ends). Without an
     * id nothing happens.
     */
    constructor (txId: string, resultPrefix: string, channelOpens: bool)
      ensures this.txId == txId && this.resultPrefix == resultPrefix
      ensures loading == (txId != "") && result == None && unsubscribeCalls == 0
      ensures subscription == if txId != "" && channelOpens then Open else NotSubscribed
    {
      this.txId := txId;
      this.resultPrefix := resultPrefix;
      loading := txId != "";
      result := None;
      subscription := if txId != "" && channelOpens then Open else NotSubscribed;
      unsubscribeCalls := 0;
    }

    /**
     * The update handler, for an event reporting `status`. `refetched` is the
     * answer to the extra getTransactionById made on success (None: rejected,
     * which abandons the handler before it updates anything). A pending event
     * changes nothing; any other ends loading, sets the result (the refetched
     * tx_result on success, none otherwise) and unsubscribes. Nothing stops a
     * later terminal event from doing all of it again.
     */
    method OnEvent(status: string, refetched: Option<ApiData>)
      requires subscription != NotSubscribed
      modifies this
      ensures status == Pending || (status == Success && refetched.None?) ==>
        loading == old(loading) && result == old(result) && subscription == old(subscription)
        && unsubscribeCalls == old(unsubscribeCalls)
      ensures status != Pending && !(status == Success && refetched.None?) ==>
        && !loading && subscription == Closed && unsubscribeCalls == old(unsubscribeCalls) + 1
        && result == (if status == Success then refetched.value.txResult else None)
    {
      var r: Option<TxResult> := None;
      if status == Pending {
        return;
      } else if status == Success {
        if refetched.None? {
          return;
        }
        r := refetched.value.txResult;
      } else if IsAbort(status) {
        r := None;
      }
      loading, result := false, r;
      subscription := Closed;
      unsubscribeCalls := unsubscribeCalls + 1;
    }

    /**
     * The rendered view: nothing without an id, the explorer link for the
     * normalised id while loading, then the prefixed result if there is one.
     */
    function Rendered(): (v: View)
      reads this
      ensures v.Nothing? <==> txId == ""
      ensures v.Checking? <==> txId != "" && loading
      ensures v.Checking? ==> v.link == StatusLink(txId) && v.shownId == NormalizeTxId(txId)
      ensures v.Checking? ==> HasHexPrefix(v.shownId) && StripHexPrefix(v.shownId) == StripHexPrefix(txId)
      ensures v.Finished? ==> result.Some? && v.repr == result.value.repr
      ensures txId != "" && !loading ==>
        v == if result.Some? then Finished(resultPrefix, result.value.repr) else Blank
    {
      if txId == "" then Nothing
      else if loading then Checking(StatusLink(txId), NormalizeTxId(txId))
      else if result.Some? then Finished(resultPrefix, result.value.repr)
      else Blank
    }
  }

  /**
   * Events pending, pending, success: the component ends with the refetched
   * result, no longer loading, after exactly one unsubscribe.
   */
  method PendingThenSuccess(txId: string, resultPrefix: string, final: ApiData) returns (s: TxStatus)
    requires txId != ""
    ensures !s.loading && s.result == final.txResult && s.unsubscribeCalls == 1
    ensures s.subscription == Closed
    ensures s.Rendered() == if final.txResult.Some? then Finished(resultPrefix, final.txResult.value.repr) else Blank
  {
    s := new TxStatus(txId, resultPrefix, true);
    s.OnEvent(Pending, None);
    s.OnEvent(Pending, None);
    assert s.loading && s.unsubscribeCalls == 0;
    s.OnEvent(Success, Some(final));
  }

  /** A direct abort: one transition, no result, one unsubscribe. */
  method AbortDirectly(txId: string, resultPrefix: string) returns (s: TxStatus)
    requires txId != ""
    ensures !s.loading && s.result == None && s.unsubscribeCalls == 1
    ensures s.Rendered() == Blank
  {
    s := new TxStatus(txId, resultPrefix, true);
    s.OnEvent("abort_by_response", None);
  }

  /** Without an id there is no subscription and nothing is rendered. */
  method WithoutId(resultPrefix: string, channelOpens: bool) returns (s: TxStatus)
    ensures s.subscription == NotSubscribed && !s.loading
    ensures s.Rendered() == Nothing
  {
    s := new TxStatus("", resultPrefix, channelOpens);
  }
}
