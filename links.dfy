/**
 * The small string functions of src/lib/transactions.js: the page a
 * transaction id links to, the `0x` normalisation TxStatus applies, and the
 * reading of a contract-call result as a status line.
 */
module Links {
  import opened Types

  const ExplorerTxPage: string := "https://explorer.stacks.co/txid/"
  const TestnetQuery: string := "?chain=testnet"
  const LocalTxPath: string := "/extended/v1/tx/"

  /** `s.startsWith('0x')` */
  predicate HasHexPrefix(s: string) {
    |s| >= 2 && s[..2] == "0x"
  }

  function StripHexPrefix(s: string): string {
    if HasHexPrefix(s) then s[2..] else s
  }

  /**
   * txUrl: the page for an unprefixed transaction id, on the local API when
   * the app runs against a mocknet and on the testnet explorer otherwise.
   */
  function TxUrl(mocknet: bool, apiUrl: string, txId: TxId): (r: string)
    ensures var at := if mocknet then |apiUrl| + |LocalTxPath| + 2 else |ExplorerTxPage| + 2;
      at + |txId| <= |r| && r[at - 2..at] == "0x" && r[at..at + |txId|] == txId
  {
    if mocknet then apiUrl + LocalTxPath + "0x" + txId
    else ExplorerTxPage + "0x" + txId + TestnetQuery
  }

  /** Different transactions never share a page. */
  lemma TxUrlInjective(mocknet: bool, apiUrl: string, a: TxId, b: TxId)
    requires TxUrl(mocknet, apiUrl, a) == TxUrl(mocknet, apiUrl, b)
    ensures a == b
  {
    var url := TxUrl(mocknet, apiUrl, a);
    if mocknet {
      var head := apiUrl + LocalTxPath + "0x";
      assert url == head + a && url == head + b;
      assert a == url[|head|..] == b;
    } else {
      var head := ExplorerTxPage + "0x";
      assert url == head + a + TestnetQuery && url == head + b + TestnetQuery;
      assert |a| == |b|;
      assert a == url[|head|..|head| + |a|] == b;
    }
  }

  /** The id as TxStatus shows it: `0x` added unless already there. */
  function NormalizeTxId(txId: string): (r: string)
    ensures HasHexPrefix(r)
    ensures StripHexPrefix(r) == StripHexPrefix(txId)
    ensures HasHexPrefix(txId) ==> r == txId
  {
    if HasHexPrefix(txId) then txId else "0x" + txId
  }

  /** Normalising twice is normalising once. */
  lemma NormalizeIdempotent(txId: string)
    ensures NormalizeTxId(NormalizeTxId(txId)) == NormalizeTxId(txId)
  {
  }

  /** The explorer link TxStatus shows while it waits. */
  function StatusLink(txId: string): string {
    ExplorerTxPage + NormalizeTxId(txId) + TestnetQuery
  }

  /**
   * With or without its prefix, an id's status link is the explorer page
   * txUrl gives for the bare id.
   */
  lemma StatusLinkIsTxUrl(txId: string, apiUrl: string)
    ensures StatusLink(txId) == TxUrl(false, apiUrl, StripHexPrefix(txId))
  {
    if HasHexPrefix(txId) {
      assert txId == "0x" + txId[2..];
    }
    assert StatusLink(txId) == ExplorerTxPage + "0x" + StripHexPrefix(txId) + TestnetQuery;
  }

  /** What a contract call answered: a string, or an object with an `error`, given by its JSON text. */
  datatype CallResult = Text(s: string) | ErrorResponse(json: string)

  /** A status line: a link to a transaction, or a plain message. */
  datatype Status = TxLink(txId: TxId) | Message(text: string)

  /**
   * resultToStatus: a quoted 66-character string names a transaction and
   * becomes a link to it (the 64 characters after the opening quote); an
   * error object is shown as its JSON; any other string is shown as it is.
   */
  function ResultToStatus(result: CallResult): (st: Status)
    ensures st.TxLink? <==> result.Text? && |result.s| == 66 && result.s[0] == '"'
    ensures st.TxLink? ==> |st.txId| == 64 && "\"" + st.txId == result.s[..65]
    ensures st.Message? ==> st.text == if result.Text? then result.s else result.json
  {
    match result
    case Text(s) => if |s| == 66 && s[0] == '"' then TxLink(s[1..65]) else Message(s)
    case ErrorResponse(json) => Message(json)
  }

  /** A transaction id returned in quotes reads back as a link to that transaction. */
  lemma QuotedTxIdIsLinked(txId: TxId)
    requires |txId| == 64
    ensures ResultToStatus(Text("\"" + txId + "\"")) == TxLink(txId)
  {
    var s := "\"" + txId + "\"";
    assert s[1..65] == txId;
  }
}
