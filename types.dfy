/**
 * The records the send-many wallet reads from the Stacks indexing service and
 * keeps in the user's encrypted storage.
 */
module Types {

  datatype Option<+T> = None | Some(value: T)

  /** A transaction id as the indexer and the storage keys use it (64 hex digits, no `0x`). */
  type TxId = string

  /** A `0x`-prefixed serialised Clarity value. */
  type Hex = string

  const Pending: string := "pending"
  const Success: string := "success"

  /**
   * One event of a transaction; `eventIndex` is its ordinal within its own
   * transaction. A `stx_asset` event is a StxTransfer and a
   * `smart_contract_log` event a ContractLog, so the `eventType` of an
   * OtherEvent is never one of those two tags.
   */
  datatype Event =
    | StxTransfer(eventIndex: nat, sender: string, recipient: string, amount: nat)
    | ContractLog(eventIndex: nat, hex: Hex)
    | OtherEvent(eventIndex: nat, eventType: string)

  datatype ContractCall = ContractCall(contractId: string, functionName: string)

  /** The `tx_result` of a finished transaction: its serialised value and printed form. */
  datatype TxResult = TxResult(hex: Hex, repr: string)

  /**
   * The indexer's view of a transaction. In a response, `events` is one page;
   * in an assembled record it is every event fetched.
   */
  datatype ApiData = ApiData(
    txStatus: string,
    eventCount: nat,
    events: seq<Event>,
    senderAddress: string,
    contractCall: Option<ContractCall>,
    burnBlockTimeIso: string,
    txResult: Option<TxResult>)

  /** What the wallet itself recorded about a transaction it sent. */
  datatype TxData = TxData(txId: TxId, details: string)

  /**
   * A transaction document: `data` as saved by the wallet, `apiData` once fetched.
   * `{}` is `TxRecord(None, None)`.
   */
  datatype TxRecord = TxRecord(data: Option<TxData>, apiData: Option<ApiData>)

  const EmptyRecord: TxRecord := TxRecord(None, None)

  /** A stored document: absent, present but not parseable, or parsed. */
  datatype Doc<T> = Missing | Unparseable | Stored(value: T)

  predicate IsPending(a: ApiData) {
    a.txStatus == Pending
  }

  /** A record the cache may serve without asking the indexer again. */
  predicate IsSettled(tx: TxRecord) {
    tx.apiData.Some? && !IsPending(tx.apiData.value)
  }
}
