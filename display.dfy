/**
 * What SendManyGroupTxs (src/components/SendManyGroupTxs.js) shows for a
 * merged group record: one row per STX transfer, the owner's rows first, and
 * the memos of a send-many-memo call, either once for the whole group or per
 * recipient.
 */
module Display {
  import opened Types
  import opened Group

  /** The transfer events (`event_type === 'stx_asset'`), in list order. */
  function Transfers(events: seq<Event>): (r: seq<Event>)
    ensures |r| <= |events|
    ensures forall i :: 0 <= i < |r| ==> r[i].StxTransfer?
  {
    if events == [] then []
    else if events[0].StxTransfer? then [events[0]] + Transfers(events[1..])
    else Transfers(events[1..])
  }

  /** Filtering keeps every transfer as often as it occurs and nothing else. */
  lemma {:induction false} TransfersKeepEveryTransfer(events: seq<Event>)
    ensures forall e: Event :: e.StxTransfer? ==> multiset(Transfers(events))[e] == multiset(events)[e]
    ensures forall e: Event :: !e.StxTransfer? ==> multiset(Transfers(events))[e] == 0
  {
    if events != [] {
      TransfersKeepEveryTransfer(events[1..]);
      assert events == [events[0]] + events[1..];
    }
  }

  /** The transfers of a merged record are the members' transfers, member by member. */
  lemma {:induction false} TransfersOfConcat(a: seq<Event>, b: seq<Event>)
    ensures Transfers(a + b) == Transfers(a) + Transfers(b)
  {
    if a == [] {
      assert a + b == b;
    } else {
      var ab := a + b;
      assert ab[0] == a[0] && ab[1..] == a[1..] + b;
      TransfersOfConcat(a[1..], b);
      if a[0].StxTransfer? {
        assert Transfers(ab) == [a[0]] + Transfers(a[1..] + b);
        assert Transfers(a) == [a[0]] + Transfers(a[1..]);
      } else {
        assert Transfers(ab) == Transfers(a[1..] + b);
        assert Transfers(a) == Transfers(a[1..]);
      }
    }
  }

  /** One displayed transfer: recipient, amount and, when memos are shown per recipient, its memo. */
  datatype Row = Row(recipient: string, amount: nat, memo: Option<Hex>)

  /** The memo following an event: the hex of the next event if that is a contract log. */
  function NextMemo(rest: seq<Event>): Option<Hex> {
    if rest != [] && rest[0].ContractLog? then Some(rest[0].hex) else None
  }

  /**
   * The rows a send-many call's transfers are meant to show: each transfer
   * paired with the memo its call logged right after it. The memo is looked
   * up by position in the list displayed, so it stays with its transfer once
   * the records of several transactions are merged.
   */
  function Rows(events: seq<Event>): (r: seq<Row>)
    ensures |r| == |Transfers(events)|
  {
    if events == [] then []
    else if events[0].StxTransfer? then
      [Row(events[0].recipient, events[0].amount, NextMemo(events[1..]))] + Rows(events[1..])
    else Rows(events[1..])
  }

  /** One row per transfer, in list order, with the transfer's recipient and amount. */
  lemma {:induction false} RowsCoverTransfers(events: seq<Event>)
    ensures |Rows(events)| == |Transfers(events)|
    ensures forall i :: 0 <= i < |Rows(events)| ==>
      Rows(events)[i].recipient == Transfers(events)[i].recipient
      && Rows(events)[i].amount == Transfers(events)[i].amount
  {
    if events != [] {
      RowsCoverTransfers(events[1..]);
    }
  }

  /**
   * The rows of a group are the rows of its members, member by member, as
   * long as no member ends with a transfer (whose memo would be looked up in
   * the next member).
   */
  lemma {:induction false} RowsOfGroup(a: seq<Event>, b: seq<Event>)
    requires a == [] || !a[|a| - 1].StxTransfer?
    ensures Rows(a + b) == Rows(a) + Rows(b)
  {
    if a == [] {
      assert a + b == b;
    } else {
      assert (a + b)[1..] == a[1..] + b;
      if |a| > 1 {
        RowsOfGroup(a[1..], b);
        assert NextMemo((a + b)[1..]) == NextMemo(a[1..]);
      } else {
        assert a[1..] == [];
      }
    }
  }

  /** Each member's rows, member by member. */
  function RowsOfEach(members: seq<ApiData>): seq<Row> {
    if members == [] then [] else Rows(members[0].events) + RowsOfEach(members[1..])
  }

  /** No member ends with a transfer: each transfer's memo lies within its own transaction. */
  predicate NoneEndsWithTransfer(members: seq<ApiData>) {
    forall i :: 0 <= i < |members| ==> members[i].events == [] || !members[i].events[|members[i].events| - 1].StxTransfer?
  }

  lemma {:induction false} RowsOfAllEvents(members: seq<ApiData>)
    requires NoneEndsWithTransfer(members)
    ensures Rows(AllEvents(members)) == RowsOfEach(members)
  {
    if members != [] {
      RowsOfAllEvents(members[1..]);
      RowsOfGroup(members[0].events, AllEvents(members[1..]));
    }
  }

  /**
   * The rows of a merged group record are the rows each member would show
   * on its own, in list order: merging does not move a memo to another
   * transaction's transfer.
   */
  lemma {:induction false} MergedRowsAreMembersRows(members: seq<ApiData>)
    requires |members| > 0 && NoneEndsWithTransfer(members)
    ensures Rows(Merge(members).events) == RowsOfEach(members)
  {
    MergeConcatenatesAndSums(members);
    RowsOfAllEvents(members);
  }

  /**
   * The per-recipient memo as the component computes it: the event at
   * `event_index + 1` of the merged list, which must be a contract log (an
   * index past the end, or an event of another kind, makes rendering throw:
   * None).
   */
  function MemoAsWritten(all: seq<Event>, transfer: Event): (r: Option<Hex>)
    requires transfer.StxTransfer?
    ensures WellIndexed(all) ==> forall k :: 0 <= k < |all| && all[k] == transfer ==> r == NextMemo(all[k + 1..])
  {
    var at := transfer.eventIndex + 1;
    if at < |all| && all[at].ContractLog? then Some(all[at].hex) else None
  }

  /**
   * The per-recipient rows as the component computes them for the transfers
   * in `rest`: each transfer's memo looked up by MemoAsWritten in `all`. None:
   * one of the lookups fails, and rendering throws.
   */
  function RowsAsWritten(all: seq<Event>, rest: seq<Event>): (r: Option<seq<Row>>)
    ensures r.Some? <==> forall i :: 0 <= i < |Transfers(rest)| ==> MemoAsWritten(all, Transfers(rest)[i]).Some?
    ensures r.Some? ==> |r.value| == |Transfers(rest)| && forall i :: 0 <= i < |r.value| ==>
      r.value[i] == Row(Transfers(rest)[i].recipient, Transfers(rest)[i].amount, MemoAsWritten(all, Transfers(rest)[i]))
  {
    if rest == [] then Some([])
    else
      var tail := RowsAsWritten(all, rest[1..]);
      if !rest[0].StxTransfer? then
        assert Transfers(rest) == Transfers(rest[1..]);
        tail
      else
        assert Transfers(rest) == [rest[0]] + Transfers(rest[1..]);
        var memo := MemoAsWritten(all, rest[0]);
        if memo.None? then
          assert Transfers(rest)[0] == rest[0];
          None
        else if tail.None? then
          assert forall i :: 0 <= i < |Transfers(rest[1..])| ==> Transfers(rest)[i + 1] == Transfers(rest[1..])[i];
          None
        else Some([Row(rest[0].recipient, rest[0].amount, memo)] + tail.value)
  }

  /** Every event carries its position in the list as its index, as in one transaction's own list. */
  predicate WellIndexed(events: seq<Event>) {
    forall i :: 0 <= i < |events| ==> events[i].eventIndex == i
  }

  /** Every transfer is followed by a contract log, as a send-many-memo call emits them. */
  predicate Memoed(events: seq<Event>) {
    forall i :: 0 <= i < |events| && events[i].StxTransfer? ==> i + 1 < |events| && events[i + 1].ContractLog?
  }

  lemma {:induction false} RowsAsWrittenFrom(all: seq<Event>, k: nat)
    requires WellIndexed(all) && Memoed(all) && k <= |all|
    ensures RowsAsWritten(all, all[k..]) == Some(Rows(all[k..]))
    decreases |all| - k
  {
    if k < |all| {
      RowsAsWrittenFrom(all, k + 1);
      assert all[k..][1..] == all[k + 1..];
      if all[k].StxTransfer? {
        assert MemoAsWritten(all, all[k]) == Some(all[k + 1].hex);
        assert NextMemo(all[k + 1..]) == Some(all[k + 1].hex);
      }
    } else {
      assert all[k..] == [];
    }
  }

  /**
   * For the events of one transaction the component's lookup by
   * `event_index + 1` is the memo that follows each transfer.
   */
  lemma RowsAsWrittenForOneTransaction(events: seq<Event>)
    requires WellIndexed(events) && Memoed(events)
    ensures RowsAsWritten(events, events) == Some(Rows(events))
  {
    RowsAsWrittenFrom(events, 0);
    assert events[0..] == events;
  }

  /**
   * The corrected pairing measured against the component's own lookup: in a
   * group of send-many-memo transactions, each indexed from 0 and with every
   * transfer followed by its memo, the merged rows are, member by member, the
   * rows the component computes for each transaction shown on its own.
   */
  lemma MergedRowsAreMembersRowsAsWritten(members: seq<ApiData>)
    requires |members| > 0
    requires forall i :: 0 <= i < |members| ==> WellIndexed(members[i].events) && Memoed(members[i].events)
    ensures Rows(Merge(members).events) == RowsOfEach(members)
    ensures forall i :: 0 <= i < |members| ==>
      RowsAsWritten(members[i].events, members[i].events) == Some(Rows(members[i].events))
  {
    forall i | 0 <= i < |members|
      ensures members[i].events == [] || !members[i].events[|members[i].events| - 1].StxTransfer?
      ensures RowsAsWritten(members[i].events, members[i].events) == Some(Rows(members[i].events))
    {
      RowsAsWrittenForOneTransaction(members[i].events);
    }
    MergedRowsAreMembersRows(members);
  }

  /**
   * Two send-many-memo transactions with one transfer each and different
   * memos: merged, the second transfer is shown with the first memo, because
   * its `event_index` (0, its position in its own transaction) is used as a
   * position in the merged list.
   */
  lemma MergedMemoCounterexample(sender: string, alice: string, bob: string)
    ensures
      var merged := [StxTransfer(0, sender, alice, 1), ContractLog(1, "0x01"),
                     StxTransfer(0, sender, bob, 2), ContractLog(1, "0x02")];
      && RowsAsWritten(merged, merged) == Some([Row(alice, 1, Some("0x01")), Row(bob, 2, Some("0x01"))])
      && Rows(merged) == [Row(alice, 1, Some("0x01")), Row(bob, 2, Some("0x02"))]
  {
    var merged := [StxTransfer(0, sender, alice, 1), ContractLog(1, "0x01"),
                   StxTransfer(0, sender, bob, 2), ContractLog(1, "0x02")];
    var aliceRow, bobRow := Row(alice, 1, Some("0x01")), Row(bob, 2, Some("0x02"));
    var bobRowAsWritten := Row(bob, 2, Some("0x01"));
    var second := merged[2..];
    assert second[0] == merged[2] && second[1..] == merged[3..];
    assert merged[3..][1..] == [] && merged[1..][1..] == second;
    assert RowsAsWritten(merged, second[1..]) == Some([]);
    assert RowsAsWritten(merged, second) == Some([bobRowAsWritten] + []);
    assert [bobRowAsWritten] + [] == [bobRowAsWritten];
    assert RowsAsWritten(merged, merged) == Some([aliceRow] + [bobRowAsWritten]);
    assert Rows(second[1..]) == [];
    assert Rows(second) == [bobRow] + [];
    assert [bobRow] + [] == [bobRow];
    assert Rows(merged) == [aliceRow] + [bobRow];
    assert [aliceRow] + [bobRowAsWritten] == [aliceRow, bobRowAsWritten];
    assert [aliceRow] + [bobRow] == [aliceRow, bobRow];
  }

  /** `Array(...new Set(hexes))`: each distinct hex once, in order of first occurrence. */
  function Distinct(s: seq<Hex>): (r: seq<Hex>)
    ensures forall i, j :: 0 <= i < j < |r| ==> r[i] != r[j]
    ensures forall h :: h in r <==> h in s
    ensures s != [] ==> r != [] && r[0] == s[0]
  {
    if s == [] then []
    else
      var d := Distinct(s[..|s| - 1]);
      assert s == s[..|s| - 1] + [s[|s| - 1]];
      if s[|s| - 1] in d then d else d + [s[|s| - 1]]
  }

  /** The position of the first occurrence of `h` in `s`. */
  function FirstIndex(s: seq<Hex>, h: Hex): (k: nat)
    requires h in s
    ensures k < |s| && s[k] == h
    ensures forall i :: 0 <= i < k ==> s[i] != h
  {
    if s[0] == h then 0 else 1 + FirstIndex(s[1..], h)
  }

  lemma {:induction false} FirstIndexOfPrefix(s: seq<Hex>, n: nat, h: Hex)
    requires n <= |s| && h in s[..n]
    ensures FirstIndex(s, h) == FirstIndex(s[..n], h)
  {
    var k := FirstIndex(s[..n], h);
    assert s[k] == h;
  }

  /** The distinct hexes come in the order of their first occurrence. */
  lemma {:induction false} DistinctInFirstOccurrenceOrder(s: seq<Hex>)
    ensures forall i, j :: 0 <= i < j < |Distinct(s)| ==> FirstIndex(s, Distinct(s)[i]) < FirstIndex(s, Distinct(s)[j])
  {
    if s != [] {
      var init := s[..|s| - 1];
      var last := s[|s| - 1];
      DistinctInFirstOccurrenceOrder(init);
      var d := Distinct(init);
      forall h | h in d
        ensures FirstIndex(s, h) == FirstIndex(init, h) < |init|
      {
        FirstIndexOfPrefix(s, |s| - 1, h);
      }
      if last !in d {
        assert forall i :: 0 <= i < |init| ==> s[i] != last;
        assert FirstIndex(s, last) == |s| - 1;
      }
    }
  }

  /** One distinct hex exactly when the list is non-empty and every entry is its first. */
  lemma OneDistinctIffAllEqual(s: seq<Hex>)
    ensures |Distinct(s)| == 1 <==> s != [] && forall i :: 0 <= i < |s| ==> s[i] == s[0]
  {
    var r := Distinct(s);
    if |r| == 1 {
      forall i | 0 <= i < |s|
        ensures s[i] == s[0]
      {
        assert s[i] in r;
      }
    }
  }

  /** Several distinct hexes exactly when two entries of the list differ. */
  lemma SeveralDistinctIffTwoDiffer(s: seq<Hex>)
    ensures |Distinct(s)| > 1 <==> exists i, j :: 0 <= i < j < |s| && s[i] != s[j]
  {
    var r := Distinct(s);
    OneDistinctIffAllEqual(s);
    if |r| > 1 {
      assert r[0] in s && r[1] in s;
      var i :| 0 <= i < |s| && s[i] == r[0];
      var j :| 0 <= j < |s| && s[j] == r[1];
      if i < j {
        assert s[i] != s[j];
      } else {
        assert s[j] != s[i];
      }
    }
    if exists i, j :: 0 <= i < j < |s| && s[i] != s[j] {
      var i, j :| 0 <= i < j < |s| && s[i] != s[j];
      assert s[i] != s[0] || s[j] != s[0];
    }
  }

  /** The events at odd positions of the list (`index % 2 === 1`), in order. */
  function OddPositioned(events: seq<Event>): (r: seq<Event>)
    ensures |r| == |events| / 2
    ensures forall i :: 0 <= i < |r| ==> r[i] == events[2 * i + 1]
  {
    if |events| < 2 then [] else [events[1]] + OddPositioned(events[2..])
  }

  lemma OddPositionedLogs(events: seq<Event>)
    ensures (forall i :: 0 <= i < |OddPositioned(events)| ==> OddPositioned(events)[i].ContractLog?) <==>
            (forall i :: 0 <= i < |events| / 2 ==> events[2 * i + 1].ContractLog?)
  {
    var odd := OddPositioned(events);
    if forall i :: 0 <= i < |odd| ==> odd[i].ContractLog? {
      forall i | 0 <= i < |events| / 2
        ensures events[2 * i + 1].ContractLog?
      {
        assert odd[i] == events[2 * i + 1];
      }
    }
    if forall i :: 0 <= i < |events| / 2 ==> events[2 * i + 1].ContractLog? {
      forall i | 0 <= i < |odd|
        ensures odd[i].ContractLog?
      {
        assert odd[i] == events[2 * i + 1];
      }
    }
  }

  /** The memo hexes: the hex of every odd-positioned event; None if one of them is not a contract log (rendering throws). */
  function MemoHexes(events: seq<Event>): (r: Option<seq<Hex>>)
    ensures r.Some? <==> forall i :: 0 <= i < |events| / 2 ==> events[2 * i + 1].ContractLog?
    ensures r.Some? ==>
      && |r.value| == |events| / 2
      && forall i :: 0 <= i < |r.value| ==> r.value[i] == events[2 * i + 1].hex
  {
    OddPositionedLogs(events);
    LogHexes(OddPositioned(events))
  }

  function LogHexes(logs: seq<Event>): (r: Option<seq<Hex>>)
    ensures r.Some? <==> forall i :: 0 <= i < |logs| ==> logs[i].ContractLog?
    ensures r.Some? ==> |r.value| == |logs| && (forall i :: 0 <= i < |logs| ==> r.value[i] == logs[i].hex)
  {
    if logs == [] then Some([])
    else if !logs[0].ContractLog? then None
    else match LogHexes(logs[1..])
      case None => None
      case Some(hs) => Some([logs[0].hex] + hs)
  }

  /** How memos are shown: not at all, one for the group, one per recipient, or rendering throws. */
  datatype MemoPolicy = NoMemo | SharedMemo(hex: Hex) | PerRecipient | RenderFails

  /**
   * showMemo and showMemoPerRecipient: memos are shown for a call of
   * `{contractAddress}.send-many-memo`; one distinct memo is shown once,
   * several are shown per recipient. A record without a contract call, an
   * odd-positioned event that is not a log, or a memo call without any memo
   * makes rendering throw.
   */
  function Policy(api: ApiData, contractAddress: string): (r: MemoPolicy)
    ensures api.contractCall.None? ==> r == RenderFails
    ensures r == NoMemo <==> api.contractCall.Some? && !IsMemoCall(api, contractAddress)
    ensures IsMemoCall(api, contractAddress) && MemoHexes(api.events).None? ==> r == RenderFails
    ensures r.SharedMemo? || r.PerRecipient? ==> IsMemoCall(api, contractAddress) && MemoHexes(api.events).Some?
    ensures IsMemoCall(api, contractAddress) && MemoHexes(api.events) == Some([]) ==> r == RenderFails
    ensures r.SharedMemo? ==> r.hex in MemoHexes(api.events).value
  {
    match api.contractCall
    case None => RenderFails
    case Some(_) =>
      if !IsMemoCall(api, contractAddress) then NoMemo
      else match MemoHexes(api.events)
        case None => RenderFails
        case Some(hexes) =>
          var memos := Distinct(hexes);
          if |memos| == 0 then RenderFails
          else if |memos| == 1 then SharedMemo(memos[0])
          else PerRecipient
  }

  predicate IsMemoCall(api: ApiData, contractAddress: string) {
    api.contractCall.Some? && api.contractCall.value.contractId == contractAddress + ".send-many-memo"
  }

  /**
   * A memo is shown once for the group exactly when the call is a memo call,
   * every odd-positioned event is a log, there is at least one, and all of
   * them carry that same memo.
   */
  lemma SharedMemoIsEveryMemo(api: ApiData, contractAddress: string, hex: Hex)
    ensures Policy(api, contractAddress) == SharedMemo(hex) <==>
      && IsMemoCall(api, contractAddress)
      && MemoHexes(api.events).Some? && MemoHexes(api.events).value != []
      && forall i :: 0 <= i < |MemoHexes(api.events).value| ==> MemoHexes(api.events).value[i] == hex
  {
    var hexes := MemoHexes(api.events);
    if hexes.Some? {
      OneDistinctIffAllEqual(hexes.value);
    }
  }

  /**
   * Memos are shown per recipient exactly when the call is a memo call, every
   * odd-positioned event is a log, and two of those logs differ.
   */
  lemma PerRecipientMeansTwoMemos(api: ApiData, contractAddress: string)
    ensures Policy(api, contractAddress) == PerRecipient <==>
      && IsMemoCall(api, contractAddress)
      && MemoHexes(api.events).Some?
      && exists i, j :: 0 <= i < j < |MemoHexes(api.events).value| && MemoHexes(api.events).value[i] != MemoHexes(api.events).value[j]
  {
    var hexes := MemoHexes(api.events);
    if hexes.Some? {
      SeveralDistinctIffTwoDiffer(hexes.value);
    }
  }

  /**
   * The transfer rows the component renders for a record, in list order (the
   * sort only reorders them): None when rendering throws, that is when the
   * memo policy does (RenderFails) or when memos are shown per recipient and
   * a transfer's lookup at `event_index + 1` is not a contract log. With memos
   * per recipient each row carries the memo read at `event_index + 1` of the
   * whole list (MemoAsWritten); otherwise no row carries a memo.
   */
  function ShownRows(api: ApiData, contractAddress: string): (r: Option<seq<Row>>)
    ensures r.None? <==>
      || Policy(api, contractAddress) == RenderFails
      || (&& Policy(api, contractAddress) == PerRecipient
          && exists i :: 0 <= i < |Transfers(api.events)| && MemoAsWritten(api.events, Transfers(api.events)[i]).None?)
    ensures r.Some? ==> |r.value| == |Transfers(api.events)| && forall i :: 0 <= i < |r.value| ==>
      && r.value[i].recipient == Transfers(api.events)[i].recipient
      && r.value[i].amount == Transfers(api.events)[i].amount
      && r.value[i].memo == (if Policy(api, contractAddress) == PerRecipient
                             then MemoAsWritten(api.events, Transfers(api.events)[i]) else None)
  {
    match Policy(api, contractAddress)
    case RenderFails => None
    case PerRecipient => RowsAsWritten(api.events, api.events)
    case _ =>
      var transfers := Transfers(api.events);
      Some(seq(|transfers|, i requires 0 <= i < |transfers| => Row(transfers[i].recipient, transfers[i].amount, None)))
  }

  /**
   * The counterexample of MergedMemoCounterexample as the component renders
   * it: a send-many-memo group whose two transactions logged different memos
   * shows its memos per recipient, and the second recipient's row carries the
   * first transaction's memo.
   */
  lemma MergedGroupShowsFirstMemoTwice(api: ApiData, contractAddress: string, sender: string, alice: string, bob: string)
    requires IsMemoCall(api, contractAddress)
    requires api.events == [StxTransfer(0, sender, alice, 1), ContractLog(1, "0x01"),
                            StxTransfer(0, sender, bob, 2), ContractLog(1, "0x02")]
    ensures Policy(api, contractAddress) == PerRecipient
    ensures ShownRows(api, contractAddress) == Some([Row(alice, 1, Some("0x01")), Row(bob, 2, Some("0x01"))])
  {
    var hexes := MemoHexes(api.events);
    assert hexes.value[0] == "0x01" && hexes.value[1] == "0x02";
    PerRecipientMeansTwoMemos(api, contractAddress);
    MergedMemoCounterexample(sender, alice, bob);
  }

  /** No row for the owner comes after a row for someone else. */
  predicate OwnerFirst(rows: seq<Row>, owner: string) {
    forall i, j :: 0 <= i < j < |rows| && rows[j].recipient == owner ==> rows[i].recipient == owner
  }

  /**
   * The sort of the transfer list: the owner's rows before everyone else's,
   * in place, a permutation of the rows. The order within each part is left
   * open (see README).
   */
  method SortOwnerFirst(a: array<Row>, owner: string)
    modifies a
    ensures OwnerFirst(a[..], owner)
    ensures multiset(a[..]) == multiset(old(a[..]))
  {
    var next := 0;
    for j := 0 to a.Length
      invariant 0 <= next <= j
      invariant forall k :: 0 <= k < next ==> a[k].recipient == owner
      invariant forall k :: next <= k < j ==> a[k].recipient != owner
      invariant multiset(a[..]) == multiset(old(a[..]))
    {
      if a[j].recipient == owner {
        Swap(a, next, j);
        next := next + 1;
      }
    }
  }

  /** Exchanges two rows of `a`. */
  method Swap(a: array<Row>, i: nat, j: nat)
    requires i < a.Length && j < a.Length
    modifies a
    ensures a[i] == old(a[j]) && a[j] == old(a[i])
    ensures forall k :: 0 <= k < a.Length && k != i && k != j ==> a[k] == old(a[k])
    ensures multiset(a[..]) == multiset(old(a[..]))
  {
    a[i], a[j] := a[j], a[i];
  }

  /**
   * The transfer list of the group view: the rows ShownRows gives, sorted
   * owner first in place; None when rendering throws. The component sorts
   * before it looks the memos up, but each row's memo depends only on its own
   * transfer, so the rows and the failure are the same in either order.
   */
  method DisplayRows(api: ApiData, owner: string, contractAddress: string) returns (rows: Option<array<Row>>)
    ensures ShownRows(api, contractAddress).None? ==> rows.None?
    ensures ShownRows(api, contractAddress).Some? ==>
      && rows.Some? && fresh(rows.value)
      && OwnerFirst(rows.value[..], owner)
      && multiset(rows.value[..]) == multiset(ShownRows(api, contractAddress).value)
  {
    var shown := ShownRows(api, contractAddress);
    if shown.None? {
      return None;
    }
    var a := new Row[|shown.value|](i requires 0 <= i < |shown.value| => shown.value[i]);
    assert a[..] == shown.value;
    SortOwnerFirst(a, owner);
    rows := Some(a);
  }

  /** JavaScript's `s.substr(start)`: a negative start counts from the end, clamped at 0. */
  function SubstrFrom(s: string, start: int): (r: string)
    ensures |r| <= |s|
    ensures r == s[|s| - |r|..]
  {
    var from := if start < 0 then (if |s| + start < 0 then 0 else |s| + start) else if start > |s| then |s| else start;
    s[from..]
  }

  /** JavaScript's `s.substr(0, length)`. */
  function Prefix(s: string, length: nat): (r: string)
    ensures |r| == if length < |s| then length else |s|
    ensures r == s[..|r|]
  {
    if length < |s| then s[..length] else s
  }

  /** Address: the first five and the last five characters around "...". */
  function Address(addr: string): (r: string)
    ensures |addr| >= 5 ==> |r| == 13 && r[..5] == addr[..5] && r[5..8] == "..." && r[8..] == addr[|addr| - 5..]
    ensures |addr| < 5 ==> |r| >= |addr| + 3 && r[..|addr|] == addr && r[|addr|..|addr| + 3] == "..."
  {
    Prefix(addr, 5) + "..." + SubstrFrom(addr, |addr| - 5)
  }

  /**
   * A short address (under five characters) is not shown whole at the end:
   * its tail starts at 2 * length - 5, because the negative start is counted
   * from the end once more.
   */
  lemma ShortAddressTail(addr: string)
    requires 3 <= |addr| < 5
    ensures Address(addr) == addr + "..." + addr[2 * |addr| - 5..]
  {
  }
}
