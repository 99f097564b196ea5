/**
  The order-book journal: depth messages are normalised into rows tagged
  bid or ask and appended, under a lock, to an append-only sequence of
  rows.  Nothing is ever overwritten or removed; the book at a point in
  time is derived from the journal by the Heatmap module.
*/
module Journal {
  import opened Wrappers
  import Decimal

  datatype Side = Bid | Ask

  /** One observation of a price level: price, resting quantity, side. */
  datatype Row = Row(price: real, quantity: real, side: Side)

  /**
    A decoded depth message.  `b` and `a` are the bid and ask update
    lists; `None` stands for a key that is absent from the message.  Each
    entry is the JSON array that should hold `[priceString, qtyString]`.
  */
  datatype DepthMessage = DepthMessage(b: Option<seq<seq<string>>>, a: Option<seq<seq<string>>>)

  /** `data.get(key, [])`: an absent key reads as an empty list. */
  function Entries(key: Option<seq<seq<string>>>): seq<seq<string>>
  {
    match key
    case Some(es) => es
    case None => []
  }

  /**
    One entry becomes one row.  The entry must unpack into exactly two
    strings, and both must parse.
  */
  function ParseEntry(e: seq<string>, side: Side): Option<Row>
  {
    if |e| != 2 then None
    else
      var price, qty := Decimal.ParseDecimal(e[0]), Decimal.ParseDecimal(e[1]);
      if price.Some? && qty.Some? then Some(Row(price.value, qty.value, side)) else None
  }

  /** Rows for one side's entry list, in input order; `None` if any entry fails. */
  function NormalizeSide(es: seq<seq<string>>, side: Side): Option<seq<Row>>
  {
    if es == [] then Some([])
    else
      var init, last := NormalizeSide(es[..|es| - 1], side), ParseEntry(es[|es| - 1], side);
      if init.Some? && last.Some? then Some(init.value + [last.value]) else None
  }

  /** The rows a message contributes: its bids, then its asks. */
  function Normalize(msg: DepthMessage): Option<seq<Row>>
  {
    var bids, asks := NormalizeSide(Entries(msg.b), Bid), NormalizeSide(Entries(msg.a), Ask);
    if bids.Some? && asks.Some? then Some(bids.value + asks.value) else None
  }

  /** A side's list is accepted exactly when each of its entries parses. */
  lemma {:induction false} NormalizeSideAccepts(es: seq<seq<string>>, side: Side)
    ensures NormalizeSide(es, side).Some? <==> forall i :: 0 <= i < |es| ==> ParseEntry(es[i], side).Some?
  {
    if es != [] {
      var init := es[..|es| - 1];
      NormalizeSideAccepts(init, side);
      assert forall i :: 0 <= i < |init| ==> init[i] == es[i];
    }
  }

  /** An accepted list yields one row per entry, the i-th row from the i-th entry. */
  lemma {:induction false} NormalizeSideRows(es: seq<seq<string>>, side: Side)
    requires NormalizeSide(es, side).Some?
    ensures |NormalizeSide(es, side).value| == |es|
    ensures forall i :: 0 <= i < |es| ==> ParseEntry(es[i], side) == Some(NormalizeSide(es, side).value[i])
  {
    if es != [] {
      var init := es[..|es| - 1];
      NormalizeSideRows(init, side);
      var rows := NormalizeSide(init, side).value;
      var last := ParseEntry(es[|es| - 1], side).value;
      assert NormalizeSide(es, side).value == rows + [last];
      forall i | 0 <= i < |es|
        ensures ParseEntry(es[i], side) == Some(NormalizeSide(es, side).value[i])
      {
        if i < |init| {
          assert init[i] == es[i];
        }
      }
    }
  }

  /**
    A message is accepted exactly when every entry of both lists parses;
    it then yields one row per bid entry tagged Bid, followed by one row
    per ask entry tagged Ask, each in input order.
  */
  lemma NormalizeSpec(msg: DepthMessage)
    ensures var bs, as_ := Entries(msg.b), Entries(msg.a);
      Normalize(msg).Some? <==>
        (forall i :: 0 <= i < |bs| ==> ParseEntry(bs[i], Bid).Some?) &&
        (forall i :: 0 <= i < |as_| ==> ParseEntry(as_[i], Ask).Some?)
    ensures var bs, as_ := Entries(msg.b), Entries(msg.a);
      Normalize(msg).Some? ==>
        var rows := Normalize(msg).value;
        |rows| == |bs| + |as_| &&
        (forall i :: 0 <= i < |bs| ==> ParseEntry(bs[i], Bid) == Some(rows[i]) && rows[i].side == Bid) &&
        (forall i :: 0 <= i < |as_| ==> ParseEntry(as_[i], Ask) == Some(rows[|bs| + i]) && rows[|bs| + i].side == Ask)
  {
    var bs, as_ := Entries(msg.b), Entries(msg.a);
    NormalizeSideAccepts(bs, Bid);
    NormalizeSideAccepts(as_, Ask);
    if Normalize(msg).Some? {
      NormalizeSideRows(bs, Bid);
      NormalizeSideRows(as_, Ask);
    }
  }

  /** The journal after one message: the new rows appended, or unchanged on a parse failure. */
  function Applied(journal: seq<Row>, msg: DepthMessage): seq<Row>
  {
    match Normalize(msg)
    case Some(rows) => journal + rows
    case None => journal
  }

  /** The journal after a stream of messages, applied in arrival order. */
  function Replay(journal: seq<Row>, msgs: seq<DepthMessage>): seq<Row>
    decreases msgs
  {
    if msgs == [] then journal else Replay(Applied(journal, msgs[0]), msgs[1..])
  }

  /** Rows contributed by the messages of a stream that parse. */
  function AcceptedRows(msgs: seq<DepthMessage>): nat
  {
    if msgs == [] then 0
    else
      (match Normalize(msgs[0]) case Some(rows) => |rows| case None => 0)
      + AcceptedRows(msgs[1..])
  }

  /**
    Over any stream, the journal only grows: the starting journal stays a
    prefix, and the length grows by exactly the rows of the accepted messages.
  */
  lemma {:induction false} ReplayGrowth(journal: seq<Row>, msgs: seq<DepthMessage>)
    ensures journal <= Replay(journal, msgs)
    ensures |Replay(journal, msgs)| == |journal| + AcceptedRows(msgs)
    decreases msgs
  {
    if msgs != [] {
      ReplayGrowth(Applied(journal, msgs[0]), msgs[1..]);
    }
  }

  /**
    The placeholder book used when the snapshot cannot be fetched:
    prices 28000..28300 on each side, four bids then four asks.
  */
  function FallbackBook(): (rows: seq<Row>)
    ensures |rows| == 8
    ensures forall i :: 0 <= i < 8 ==> rows[i].side == (if i < 4 then Bid else Ask)
    ensures forall i :: 0 <= i < 8 ==> rows[i].price == 28000.0 + 100.0 * (i % 4) as real
  {
    [ Row(28000.0, 10.0, Bid), Row(28100.0, 20.0, Bid), Row(28200.0, 15.0, Bid), Row(28300.0, 5.0, Bid),
      Row(28000.0, 8.0, Ask), Row(28100.0, 12.0, Ask), Row(28200.0, 7.0, Ask), Row(28300.0, 9.0, Ask) ]
  }

  /**
    The loop that turns one side's entry list into rows, stopping at the
    first entry that does not parse.
  */
  method ParseSide(es: seq<seq<string>>, side: Side) returns (rows: Option<seq<Row>>)
    ensures rows == NormalizeSide(es, side)
  {
    var updates: seq<Row> := [];
    var i := 0;
    while i < |es|
      invariant 0 <= i <= |es|
      invariant NormalizeSide(es[..i], side) == Some(updates)
    {
      var row := ParseEntry(es[i], side);
      assert es[..i + 1][..i] == es[..i];
      if row.None? {
        NormalizeSideAccepts(es, side);
        return None;
      }
      updates := updates + [row.value];
      i := i + 1;
    }
    assert es[..i] == es;
    rows := Some(updates);
  }

  /** The shared order book: the journal that the feed appends to and the refresh copies. */
  class OrderBook {
    var journal: seq<Row>

    /** Start-up: the journal holds the snapshot (or the fallback rows). */
    constructor (snapshot: seq<Row>)
      ensures journal == snapshot
    {
      journal := snapshot;
    }

    /**
      Normalise `msg` and append its rows.  A parse failure aborts before the
      journal is touched; otherwise the single assignment to `journal` is the
      locked section, so no reader sees a partial append.
    */
    method ApplyUpdate(msg: DepthMessage) returns (ok: bool)
      modifies this
      ensures ok <==> Normalize(msg).Some?
      ensures journal == Applied(old(journal), msg)
      ensures old(journal) <= journal
      ensures !ok ==> journal == old(journal)
      ensures ok ==> |journal| == |old(journal)| + |Entries(msg.b)| + |Entries(msg.a)|
    {
      NormalizeSpec(msg);
      var bids := ParseSide(Entries(msg.b), Bid);
      if bids.None? {
        return false;
      }
      var asks := ParseSide(Entries(msg.a), Ask);
      if asks.None? {
        return false;
      }
      var updates := bids.value + asks.value;
      journal := journal + updates;
      ok := true;
    }

    /** The refresh's copy of the journal, taken under the lock. */
    method Snapshot() returns (rows: seq<Row>)
      ensures rows == journal
    {
      rows := journal;
    }
  }
}
