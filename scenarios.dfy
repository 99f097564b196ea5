/**
  Concrete books and messages, worked through the model.  The books are
  described row by row (rather than as one sequence display) so that the
  general lemmas can be applied to them.
*/
module Scenarios {
  import opened Wrappers
  import opened Journal
  import opened Heatmap

  /** The rows of the placeholder book, one by one. */
  predicate IsFallback(rows: seq<Row>) {
    |rows| == 8 &&
    rows[0] == Row(28000.0, 10.0, Bid) && rows[1] == Row(28100.0, 20.0, Bid) &&
    rows[2] == Row(28200.0, 15.0, Bid) && rows[3] == Row(28300.0, 5.0, Bid) &&
    rows[4] == Row(28000.0, 8.0, Ask) && rows[5] == Row(28100.0, 12.0, Ask) &&
    rows[6] == Row(28200.0, 7.0, Ask) && rows[7] == Row(28300.0, 9.0, Ask)
  }

  lemma FallbackBins(rows: seq<Row>, k: nat)
    requires IsFallback(rows) && k < |rows|
    ensures Bin(rows[k].price) as real == rows[k].price
    ensures Bin(rows[k].price) == 28000 + 100 * (k % 4)
  {
    assert Bin(28000.0) == 28000 && Bin(28100.0) == 28100 && Bin(28200.0) == 28200 && Bin(28300.0) == 28300;
  }

  lemma FallbackLevelMember(rows: seq<Row>, p: int)
    requires IsFallback(rows)
    ensures VisibleLevel(rows, 28150.0, p) <==> p in [28300, 28200, 28100, 28000]
  {
    if exists r :: r in rows && Bin(r.price) == p {
      var r :| r in rows && Bin(r.price) == p;
      var k :| 0 <= k < |rows| && rows[k] == r;
      FallbackBins(rows, k);
    }
    if p in [28300, 28200, 28100, 28000] {
      var k := (p - 28000) / 100;
      assert rows[k] in rows;
      FallbackBins(rows, k);
    }
  }

  lemma FallbackLevel(rows: seq<Row>, k: nat)
    requires IsFallback(rows) && k < 8
    ensures LevelSum(rows, 28000 + 100 * (k % 4), rows[k].side) == rows[k].quantity
  {
    FallbackBins(rows, k);
    forall j | 0 <= j < |rows| && j != k
      ensures Bin(rows[j].price) != Bin(rows[k].price) || rows[j].side != rows[k].side
    {
      FallbackBins(rows, j);
    }
    LevelSumSingle(rows, k, Bin(rows[k].price), rows[k].side);
  }

  /** The grid the placeholder book should produce. */
  const FallbackOutcome: Outcome :=
    Grid(28300.0, 28000.0, 28150.0,
         [28300, 28200, 28100, 28000],
         [Cell(5.0, 9.0), Cell(15.0, 7.0), Cell(20.0, 12.0), Cell(10.0, 8.0)],
         4, 4)

  lemma FallbackBest(rows: seq<Row>)
    requires IsFallback(rows)
    ensures DescribesBest(rows, FallbackOutcome)
  {
    assert rows[0] in rows && rows[3] in rows && rows[4] in rows;
    forall r | r in rows ensures r.price <= 28300.0 && 28000.0 <= r.price {
      var k :| 0 <= k < |rows| && rows[k] == r;
    }
    FallbackBins(rows, 0);
  }

  lemma FallbackCells(rows: seq<Row>)
    requires IsFallback(rows)
    ensures forall i :: 0 <= i < 4 ==>
      FallbackOutcome.cells[i] ==
        Cell(LevelSum(rows, FallbackOutcome.prices[i], Bid), LevelSum(rows, FallbackOutcome.prices[i], Ask))
  {
    FallbackLevel(rows, 0);
    FallbackLevel(rows, 1);
    FallbackLevel(rows, 2);
    FallbackLevel(rows, 3);
    FallbackLevel(rows, 4);
    FallbackLevel(rows, 5);
    FallbackLevel(rows, 6);
    FallbackLevel(rows, 7);
  }

  lemma FallbackGridPart(rows: seq<Row>)
    requires IsFallback(rows)
    ensures DescribesGrid(rows, FallbackOutcome)
  {
    forall p ensures p in [28300, 28200, 28100, 28000] <==> VisibleLevel(rows, 28150.0, p) {
      FallbackLevelMember(rows, p);
    }
    FallbackCells(rows);
  }

  lemma FallbackDescribed(rows: seq<Row>)
    requires IsFallback(rows)
    ensures Describes(rows, FallbackOutcome)
  {
    assert rows[0] in rows && rows[4] in rows;
    FallbackBest(rows);
    FallbackGridPart(rows);
  }

  /**
    The placeholder book is crossed (best bid 28300 above best ask 28000);
    its four prices all fall in the window, each with both sides filled.
  */
  lemma FallbackGrid()
    ensures Aggregate(FallbackBook()) ==
      Grid(28300.0, 28000.0, 28150.0,
           [28300, 28200, 28100, 28000],
           [Cell(5.0, 9.0), Cell(15.0, 7.0), Cell(20.0, 12.0), Cell(10.0, 8.0)],
           4, 4)
  {
    var rows := FallbackBook();
    assert IsFallback(rows);
    FallbackDescribed(rows);
    AggregateMeetsSpec(rows);
    DescribesUnique(rows, Aggregate(rows), FallbackOutcome);
  }

  // ---------------------------------------------------------------- an aligned ladder

  /** Bids 100 x 5 and 90 x 3, asks 110 x 4 and 120 x 2, one row each. */
  predicate IsLadder(rows: seq<Row>) {
    |rows| == 4 &&
    rows[0] == Row(100.0, 5.0, Bid) && rows[1] == Row(90.0, 3.0, Bid) &&
    rows[2] == Row(110.0, 4.0, Ask) && rows[3] == Row(120.0, 2.0, Ask)
  }

  function LadderPrice(k: nat): int
    requires k < 4
  {
    if k == 0 then 100 else if k == 1 then 90 else if k == 2 then 110 else 120
  }

  lemma LadderBins(rows: seq<Row>, k: nat)
    requires IsLadder(rows) && k < |rows|
    ensures Bin(rows[k].price) as real == rows[k].price
    ensures Bin(rows[k].price) == LadderPrice(k)
  {
    assert Bin(100.0) == 100 && Bin(90.0) == 90 && Bin(110.0) == 110 && Bin(120.0) == 120;
  }

  /** Each ladder price is fed by exactly one row, and its other side is empty. */
  lemma LadderLevel(rows: seq<Row>, k: nat)
    requires IsLadder(rows) && k < 4
    ensures LevelSum(rows, LadderPrice(k), rows[k].side) == rows[k].quantity
    ensures LevelSum(rows, LadderPrice(k), if rows[k].side == Bid then Ask else Bid) == 0.0
  {
    LadderBins(rows, k);
    forall j | 0 <= j < |rows| && j != k
      ensures Bin(rows[j].price) != Bin(rows[k].price)
    {
      LadderBins(rows, j);
    }
    LevelSumSingle(rows, k, Bin(rows[k].price), rows[k].side);
    forall r | r in rows
      ensures Bin(r.price) != LadderPrice(k) || r.side != (if rows[k].side == Bid then Ask else Bid)
    {
      var j :| 0 <= j < |rows| && rows[j] == r;
      LadderBins(rows, j);
    }
    LevelSumAbsent(rows, LadderPrice(k), if rows[k].side == Bid then Ask else Bid);
  }

  lemma LadderLevelMember(rows: seq<Row>, p: int)
    requires IsLadder(rows)
    ensures VisibleLevel(rows, 105.0, p) <==> p in [120, 110, 100, 90]
  {
    if exists r :: r in rows && Bin(r.price) == p {
      var r :| r in rows && Bin(r.price) == p;
      var k :| 0 <= k < |rows| && rows[k] == r;
      LadderBins(rows, k);
    }
    if p in [120, 110, 100, 90] {
      var k := if p == 100 then 0 else if p == 90 then 1 else if p == 110 then 2 else 3;
      assert rows[k] in rows;
      LadderBins(rows, k);
    }
  }

  /** The grid the aligned ladder should produce. */
  const LadderOutcome: Outcome :=
    Grid(100.0, 110.0, 105.0,
         [120, 110, 100, 90],
         [Cell(0.0, 2.0), Cell(0.0, 4.0), Cell(5.0, 0.0), Cell(3.0, 0.0)],
         4, 4)

  lemma LadderBest(rows: seq<Row>)
    requires IsLadder(rows)
    ensures DescribesBest(rows, LadderOutcome)
  {
    assert rows[0] in rows && rows[2] in rows;
    forall r | r in rows
      ensures r.side == Bid ==> r.price <= 100.0
      ensures r.side == Ask ==> 110.0 <= r.price
    {
      var k :| 0 <= k < |rows| && rows[k] == r;
    }
    LadderBins(rows, 0);
  }

  lemma LadderCells(rows: seq<Row>)
    requires IsLadder(rows)
    ensures forall i :: 0 <= i < 4 ==>
      LadderOutcome.cells[i] ==
        Cell(LevelSum(rows, LadderOutcome.prices[i], Bid), LevelSum(rows, LadderOutcome.prices[i], Ask))
  {
    LadderLevel(rows, 0);
    LadderLevel(rows, 1);
    LadderLevel(rows, 2);
    LadderLevel(rows, 3);
  }

  lemma LadderGridPart(rows: seq<Row>)
    requires IsLadder(rows)
    ensures DescribesGrid(rows, LadderOutcome)
  {
    forall p ensures p in [120, 110, 100, 90] <==> VisibleLevel(rows, 105.0, p) {
      LadderLevelMember(rows, p);
    }
    LadderCells(rows);
  }

  lemma LadderDescribed(rows: seq<Row>)
    requires IsLadder(rows)
    ensures Describes(rows, LadderOutcome)
  {
    assert rows[0] in rows && rows[2] in rows;
    LadderBest(rows);
    LadderGridPart(rows);
  }

  /**
    The aligned ladder: best bid 100, best ask 110, mid 105, all four bins
    in the window in descending order, each filled on its own side only,
    every level occupied.
  */
  lemma LadderGrid(rows: seq<Row>)
    requires rows == [Row(100.0, 5.0, Bid), Row(90.0, 3.0, Bid), Row(110.0, 4.0, Ask), Row(120.0, 2.0, Ask)]
    ensures Aggregate(rows) ==
      Grid(100.0, 110.0, 105.0,
           [120, 110, 100, 90],
           [Cell(0.0, 2.0), Cell(0.0, 4.0), Cell(5.0, 0.0), Cell(3.0, 0.0)],
           4, 4)
    ensures Aggregate(rows).Grid? && OccupancyPercent(Aggregate(rows).occupied, Aggregate(rows).total) == 100.0
  {
    assert IsLadder(rows);
    LadderDescribed(rows);
    AggregateMeetsSpec(rows);
    DescribesUnique(rows, Aggregate(rows), LadderOutcome);
  }

  // ---------------------------------------------------------------- an empty window

  /** An ask at 28000 and a bid at 38000: a book crossed by 10000. */
  predicate IsWideCross(rows: seq<Row>) {
    |rows| == 2 && rows[0] == Row(28000.0, 1.0, Ask) && rows[1] == Row(38000.0, 1.0, Bid)
  }

  lemma WideCrossDescribed(rows: seq<Row>)
    requires IsWideCross(rows)
    ensures Describes(rows, EmptyWindow(38000.0, 28000.0, 33000.0))
  {
    assert rows[0] in rows && rows[1] in rows;
    assert Bin(28000.0) == 28000 && Bin(38000.0) == 38000;
    forall r | r in rows
      ensures r.side == Bid ==> r.price <= 38000.0
      ensures r.side == Ask ==> 28000.0 <= r.price
      ensures !InWindow(Bin(r.price), 33000.0)
    {
      var k :| 0 <= k < |rows| && rows[k] == r;
    }
  }

  /**
    Best bid 38000 and best ask 28000 put the mid at 33000 and the window at
    [29000, 37000], which neither bin reaches.  As written, the refresh
    builds a grid with no price and the occupancy divides by zero; the
    corrected aggregation reports the empty window instead.
  */
  lemma WideCrossEmptyWindow(rows: seq<Row>)
    requires rows == [Row(28000.0, 1.0, Ask), Row(38000.0, 1.0, Bid)]
    ensures var o := AggregateAsWritten(rows);
      o.Grid? && o.total == 0 && OccupancyAsWritten(o.occupied, o.total) == None
    ensures Aggregate(rows) == EmptyWindow(38000.0, 28000.0, 33000.0)
  {
    assert IsWideCross(rows);
    WideCrossDescribed(rows);
    AggregateMeetsSpec(rows);
    DescribesUnique(rows, Aggregate(rows), EmptyWindow(38000.0, 28000.0, 33000.0));
  }

  // ---------------------------------------------------------------- depth messages

  /**
    A message with one bid entry, written as two decimal numbers, and no
    "a" key contributes exactly that bid.
  */
  lemma OneBidMessage(journal: seq<Row>, price: nat, qty: nat)
    ensures var msg := DepthMessage(Some([[Decimal.NatString(price), Decimal.NatString(qty)]]), None);
      Normalize(msg) == Some([Row(price as real, qty as real, Bid)]) &&
      Applied(journal, msg) == journal + [Row(price as real, qty as real, Bid)]
  {
    Decimal.ParseNatString(price);
    Decimal.ParseNatString(qty);
    var es: seq<seq<string>> := [[Decimal.NatString(price), Decimal.NatString(qty)]];
    assert ParseEntry(es[0], Bid) == Some(Row(price as real, qty as real, Bid));
    NormalizeSideAccepts(es, Bid);
    NormalizeSideRows(es, Bid);
    var bids := NormalizeSide(es, Bid).value;
    assert bids == [Row(price as real, qty as real, Bid)];
    assert NormalizeSide([], Ask) == Some([]);
    assert Normalize(DepthMessage(Some(es), None)) == Some(bids + []);
    assert bids + [] == bids;
  }

  /**
    A message whose ask price is not a number is dropped whole: the bid
    that parsed is not appended either.
  */
  lemma MalformedMessage(journal: seq<Row>, price: nat, qty: nat)
    ensures var msg := DepthMessage(Some([[Decimal.NatString(price), Decimal.NatString(qty)]]), Some([["abc", "1"]]));
      Normalize(msg) == None && Applied(journal, msg) == journal
  {
    Decimal.ParseRejectsForeign("abc", 0);
    var es: seq<seq<string>> := [["abc", "1"]];
    assert ParseEntry(es[0], Ask) == None;
    NormalizeSideAccepts(es, Ask);
  }

  /** An entry that does not unpack into exactly two strings is rejected. */
  lemma WrongArity(side: Side)
    ensures ParseEntry(["1", "2", "3"], side) == None
    ensures ParseEntry(["1"], side) == None
  {
  }
}
