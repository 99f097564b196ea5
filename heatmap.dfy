/**
  The refresh's aggregation of a copied journal into the heatmap grid:
  best bid and ask, mid price, price bins of width 10, a window of 4000
  around the mid, the descending price axis, per-(price, side) quantity
  sums with zero fill, and the count of occupied levels.
*/
module Heatmap {
  import opened Wrappers
  import opened Journal

  /** Bin width (`step`) and half-width of the visible window (`rango_usd`). */
  const Step: int := 10
  const Range: real := 4000.0

  /** A row after binning: its price replaced by the integer bin it falls in. */
  datatype Binned = Binned(price: int, quantity: real, side: Side)

  /** One line of the pivot: the summed bid and ask quantity at a price, 0 where there is none. */
  datatype Cell = Cell(bid: real, ask: real)

  /** Distinct raw prices per side, as displayed before any other check. */
  datatype Levels = Levels(bids: nat, asks: nat)

  datatype Outcome =
    | Loading
    | NoValidLevels
    | EmptyWindow(bestBid: real, bestAsk: real, mid: real)
    | Grid(bestBid: real, bestAsk: real, mid: real,
           prices: seq<int>, cells: seq<Cell>, occupied: nat, total: nat)

  // ---------------------------------------------------------------- best bid / ask

  /** The prices of the rows on one side, in journal order. */
  function PricesOf(rows: seq<Row>, side: Side): (ps: seq<real>)
    ensures |ps| <= |rows|
    ensures forall p :: p in ps <==> exists r :: r in rows && r.side == side && r.price == p
  {
    if rows == [] then []
    else
      var rest := PricesOf(rows[1..], side);
      assert forall r :: r in rows <==> r == rows[0] || r in rows[1..];
      if rows[0].side == side then [rows[0].price] + rest else rest
  }

  function MaxOf(ps: seq<real>): (m: real)
    requires |ps| > 0
    ensures m in ps
    ensures forall p :: p in ps ==> p <= m
  {
    if |ps| == 1 then ps[0]
    else
      var m := MaxOf(ps[1..]);
      assert forall p :: p in ps <==> p == ps[0] || p in ps[1..];
      if ps[0] >= m then ps[0] else m
  }

  function MinOf(ps: seq<real>): (m: real)
    requires |ps| > 0
    ensures m in ps
    ensures forall p :: p in ps ==> m <= p
  {
    if |ps| == 1 then ps[0]
    else
      var m := MinOf(ps[1..]);
      assert forall p :: p in ps <==> p == ps[0] || p in ps[1..];
      if ps[0] <= m then ps[0] else m
  }

  // ---------------------------------------------------------------- level counts

  /** `nunique`: the number of distinct values. */
  function DistinctCount(ps: seq<real>): nat
  {
    |set p | p in ps|
  }

  lemma {:induction false} DistinctCountBounds(ps: seq<real>)
    ensures DistinctCount(ps) <= |ps|
    ensures DistinctCount(ps) == 0 <==> ps == []
  {
    if ps != [] {
      DistinctCountBounds(ps[1..]);
      var all, rest := set p | p in ps, set p | p in ps[1..];
      assert all == {ps[0]} + rest;
      assert ps[0] in all;
    }
  }

  function LevelCounts(rows: seq<Row>): Levels
  {
    Levels(DistinctCount(PricesOf(rows, Bid)), DistinctCount(PricesOf(rows, Ask)))
  }

  /**
    Each displayed level count is at most the number of rows on that side,
    and is zero exactly when that side has no row.
  */
  lemma LevelCountsBounds(rows: seq<Row>)
    ensures LevelCounts(rows).bids <= |PricesOf(rows, Bid)|
    ensures LevelCounts(rows).asks <= |PricesOf(rows, Ask)|
    ensures LevelCounts(rows).bids == 0 <==> forall r :: r in rows ==> r.side != Bid
    ensures LevelCounts(rows).asks == 0 <==> forall r :: r in rows ==> r.side != Ask
  {
    var bids, asks := PricesOf(rows, Bid), PricesOf(rows, Ask);
    DistinctCountBounds(bids);
    DistinctCountBounds(asks);
    if bids != [] { assert bids[0] in bids; }
    if asks != [] { assert asks[0] in asks; }
  }

  // ---------------------------------------------------------------- binning

  /** `price // step * step` cast to int: the multiple of the step at or below the price. */
  function Bin(p: real): (b: int)
    ensures b % Step == 0
    ensures b as real <= p < b as real + Step as real
  {
    (p / 10.0).Floor * Step
  }

  /** Binning fixes every multiple of the step, so it is idempotent. */
  lemma BinFixed(k: int)
    ensures Bin((k * Step) as real) == k * Step
  {
    assert ((k * Step) as real / 10.0) == k as real;
  }

  lemma BinIdempotent(p: real)
    ensures Bin(Bin(p) as real) == Bin(p)
  {
    BinFixed(Bin(p) / Step);
  }

  lemma BinMonotone(p: real, q: real)
    requires p <= q
    ensures Bin(p) <= Bin(q)
  {
  }

  function BinRows(rows: seq<Row>): (bs: seq<Binned>)
    ensures |bs| == |rows|
    ensures forall i :: 0 <= i < |rows| ==>
      bs[i] == Binned(Bin(rows[i].price), rows[i].quantity, rows[i].side)
  {
    seq(|rows|, i requires 0 <= i < |rows| => Binned(Bin(rows[i].price), rows[i].quantity, rows[i].side))
  }

  // ---------------------------------------------------------------- window

  predicate InWindow(b: int, mid: real) {
    mid - Range <= b as real <= mid + Range
  }

  /** The rows whose binned price lies within the range around the mid, in order. */
  function Window(bs: seq<Binned>, mid: real): (w: seq<Binned>)
    ensures |w| <= |bs|
    ensures forall x :: x in w <==> x in bs && InWindow(x.price, mid)
  {
    if bs == [] then []
    else
      var rest := Window(bs[1..], mid);
      assert forall x :: x in bs <==> x == bs[0] || x in bs[1..];
      if InWindow(bs[0].price, mid) then [bs[0]] + rest else rest
  }

  /** The binned journal restricted to the window. */
  function Visible(rows: seq<Row>, mid: real): seq<Binned>
  {
    Window(BinRows(rows), mid)
  }

  // ---------------------------------------------------------------- price axis

  predicate StrictlyDesc(s: seq<int>) {
    forall i, j :: 0 <= i < j < |s| ==> s[i] > s[j]
  }

  /** Insert into a strictly descending sequence, keeping it so; a value already present is skipped. */
  function InsertDesc(x: int, s: seq<int>): (r: seq<int>)
    requires StrictlyDesc(s)
    ensures StrictlyDesc(r)
    ensures forall y :: y in r <==> y == x || y in s
  {
    if s == [] then [x]
    else if x > s[0] then [x] + s
    else if x == s[0] then s
    else
      var rest := InsertDesc(x, s[1..]);
      assert forall y :: y in s <==> y == s[0] || y in s[1..];
      forall y | y in s[1..]
        ensures y < s[0]
      {
        var k :| 0 <= k < |s[1..]| && s[1..][k] == y;
        assert s[k + 1] == y;
      }
      var r := [s[0]] + rest;
      forall i, j | 0 <= i < j < |r|
        ensures r[i] > r[j]
      {
        assert r[j] == rest[j - 1] && rest[j - 1] in rest;
        if i > 0 {
          assert r[i] == rest[i - 1];
        }
      }
      r
  }

  /** A strictly descending sequence is determined by the set of its elements. */
  lemma {:induction false} StrictlyDescUnique(a: seq<int>, b: seq<int>)
    requires StrictlyDesc(a) && StrictlyDesc(b)
    requires forall y :: y in a <==> y in b
    ensures a == b
  {
    assert b != [] ==> b[0] in b;
    if a != [] {
      assert a[0] in a;
      assert a[0] in b;
      assert b[0] in b;
      assert b[0] in a;
      assert a[0] == b[0];
      forall y
        ensures y in a[1..] <==> y in b[1..]
      {
        assert y in a <==> y == a[0] || y in a[1..];
        assert y in b <==> y == b[0] || y in b[1..];
      }
      StrictlyDescUnique(a[1..], b[1..]);
      assert a == [a[0]] + a[1..] && b == [b[0]] + b[1..];
    }
  }

  /** `sorted(unique(xs), reverse=True)`. */
  function SortedDistinct(xs: seq<int>): (r: seq<int>)
    ensures StrictlyDesc(r)
    ensures forall y :: y in r <==> y in xs
  {
    if xs == [] then []
    else
      var rest := SortedDistinct(xs[1..]);
      assert forall y :: y in xs <==> y == xs[0] || y in xs[1..];
      InsertDesc(xs[0], rest)
  }

  function BinPrices(w: seq<Binned>): (ps: seq<int>)
    ensures |ps| == |w|
    ensures forall i :: 0 <= i < |w| ==> ps[i] == w[i].price
  {
    seq(|w|, i requires 0 <= i < |w| => w[i].price)
  }

  function Axis(w: seq<Binned>): seq<int>
  {
    SortedDistinct(BinPrices(w))
  }

  // ---------------------------------------------------------------- pivot

  /** Sum of the quantities of the binned rows at price `p` on `side` (the pivot's `aggfunc="sum"`). */
  function SumQty(w: seq<Binned>, p: int, side: Side): real
  {
    if w == [] then 0.0
    else (if w[0].price == p && w[0].side == side then w[0].quantity else 0.0) + SumQty(w[1..], p, side)
  }

  /** The pivot reindexed on the axis, missing combinations filled with 0. */
  function Cells(w: seq<Binned>, axis: seq<int>): (cs: seq<Cell>)
    ensures |cs| == |axis|
    ensures forall i :: 0 <= i < |axis| ==> cs[i] == Cell(SumQty(w, axis[i], Bid), SumQty(w, axis[i], Ask))
  {
    seq(|axis|, i requires 0 <= i < |axis| => Cell(SumQty(w, axis[i], Bid), SumQty(w, axis[i], Ask)))
  }

  predicate Occupied(c: Cell) {
    c.bid + c.ask != 0.0
  }

  /** `count_nonzero` of the row sums. */
  function CountNonzero(cs: seq<Cell>): (n: nat)
    ensures n <= |cs|
  {
    if cs == [] then 0 else (if Occupied(cs[0]) then 1 else 0) + CountNonzero(cs[1..])
  }

  lemma {:induction false} CountNonzeroFull(cs: seq<Cell>)
    ensures CountNonzero(cs) == |cs| <==> forall i :: 0 <= i < |cs| ==> Occupied(cs[i])
  {
    if cs != [] {
      CountNonzeroFull(cs[1..]);
      assert forall i :: 1 <= i < |cs| ==> cs[i] == cs[1..][i - 1];
    }
  }

  // ---------------------------------------------------------------- the pipeline

  /**
    The aggregation exactly as the refresh performs it, including a grid
    with no price at all when nothing falls inside the window.
  */
  function AggregateAsWritten(rows: seq<Row>): Outcome
  {
    if rows == [] then Loading
    else
      var bids, asks := PricesOf(rows, Bid), PricesOf(rows, Ask);
      if bids == [] || asks == [] then NoValidLevels
      else GridAt(rows, MaxOf(bids), MinOf(asks))
  }

  /** The grid for given best prices: mid, binning, window, axis, pivot and occupied count. */
  function GridAt(rows: seq<Row>, bestBid: real, bestAsk: real): Outcome
  {
    var mid := (bestBid + bestAsk) / 2.0;
    var w := Visible(rows, mid);
    var axis := Axis(w);
    var cells := Cells(w, axis);
    Grid(bestBid, bestAsk, mid, axis, cells, CountNonzero(cells), |axis|)
  }

  /** The aggregation with an empty window reported as its own outcome. */
  function Aggregate(rows: seq<Row>): Outcome
  {
    var o := AggregateAsWritten(rows);
    if o.Grid? && o.total == 0 then EmptyWindow(o.bestBid, o.bestAsk, o.mid) else o
  }

  /** `occupied_levels / total_levels * 100`; `None` is the division by zero. */
  function OccupancyAsWritten(occupied: nat, total: nat): (r: Option<real>)
    ensures r.None? <==> total == 0
    ensures 0 < total && occupied <= total ==> r == Some(OccupancyPercent(occupied, total))
  {
    if total == 0 then None else Some(occupied as real / total as real * 100.0)
  }

  /** The occupancy percentage of a grid that has at least one price. */
  function OccupancyPercent(occupied: nat, total: nat): (pct: real)
    requires 0 < total && occupied <= total
    ensures 0.0 <= pct <= 100.0
    ensures pct == 100.0 <==> occupied == total
    ensures pct == 0.0 <==> occupied == 0
  {
    occupied as real / total as real * 100.0
  }

  // ---------------------------------------------------------------- reference sums

  /** Reference: total quantity of the journal rows whose price bins to `p` on `side`. */
  function LevelSum(rows: seq<Row>, p: int, side: Side): real
  {
    if rows == [] then 0.0
    else
      (if Bin(rows[0].price) == p && rows[0].side == side then rows[0].quantity else 0.0)
      + LevelSum(rows[1..], p, side)
  }

  /** A level fed by exactly one journal row reports that row's quantity. */
  lemma {:induction false} LevelSumSingle(rows: seq<Row>, k: nat, p: int, side: Side)
    requires k < |rows| && Bin(rows[k].price) == p && rows[k].side == side
    requires forall j :: 0 <= j < |rows| && j != k ==> Bin(rows[j].price) != p || rows[j].side != side
    ensures LevelSum(rows, p, side) == rows[k].quantity
  {
    if k == 0 {
      forall r | r in rows[1..] ensures Bin(r.price) != p || r.side != side {
        var j :| 0 <= j < |rows[1..]| && rows[1..][j] == r;
        assert rows[j + 1] == r;
      }
      LevelSumAbsent(rows[1..], p, side);
    } else {
      LevelSumSingle(rows[1..], k - 1, p, side);
    }
  }

  /** Reference: total quantity of the journal rows whose bin lies inside the window. */
  function WindowQuantity(rows: seq<Row>, mid: real): real
  {
    if rows == [] then 0.0
    else
      (if InWindow(Bin(rows[0].price), mid) then rows[0].quantity else 0.0)
      + WindowQuantity(rows[1..], mid)
  }

  /** A price level with no journal row on that side sums to zero. */
  lemma {:induction false} LevelSumAbsent(rows: seq<Row>, p: int, side: Side)
    requires forall r :: r in rows ==> Bin(r.price) != p || r.side != side
    ensures LevelSum(rows, p, side) == 0.0
  {
    if rows != [] {
      assert rows[0] in rows;
      LevelSumAbsent(rows[1..], p, side);
    }
  }

  lemma {:induction false} BinnedSums(rows: seq<Row>, p: int, side: Side)
    ensures SumQty(BinRows(rows), p, side) == LevelSum(rows, p, side)
  {
    if rows != [] {
      assert BinRows(rows)[1..] == BinRows(rows[1..]);
      BinnedSums(rows[1..], p, side);
    }
  }

  /** The window keeps every row at an in-window price and drops every other one. */
  lemma {:induction false} WindowSums(bs: seq<Binned>, mid: real, p: int, side: Side)
    ensures SumQty(Window(bs, mid), p, side) == if InWindow(p, mid) then SumQty(bs, p, side) else 0.0
  {
    if bs != [] {
      WindowSums(bs[1..], mid, p, side);
      var rest := Window(bs[1..], mid);
      if InWindow(bs[0].price, mid) {
        assert ([bs[0]] + rest)[1..] == rest;
      }
    }
  }

  function Total(w: seq<Binned>): real
  {
    if w == [] then 0.0 else w[0].quantity + Total(w[1..])
  }

  function CellsTotal(cs: seq<Cell>): real
  {
    if cs == [] then 0.0 else cs[0].bid + cs[0].ask + CellsTotal(cs[1..])
  }

  lemma {:induction false} WindowTotal(rows: seq<Row>, mid: real)
    ensures Total(Window(BinRows(rows), mid)) == WindowQuantity(rows, mid)
  {
    if rows != [] {
      var bs := BinRows(rows);
      assert bs[1..] == BinRows(rows[1..]);
      WindowTotal(rows[1..], mid);
      var rest := Window(bs[1..], mid);
      if InWindow(bs[0].price, mid) {
        assert ([bs[0]] + rest)[1..] == rest;
      }
    }
  }

  /** What one binned row adds to the cells of an axis. */
  function Hit(x: Binned, axis: seq<int>): real
  {
    if axis == [] then 0.0
    else (if x.price == axis[0] then x.quantity else 0.0) + Hit(x, axis[1..])
  }

  lemma {:induction false} HitOnce(x: Binned, axis: seq<int>)
    requires StrictlyDesc(axis)
    ensures Hit(x, axis) == if x.price in axis then x.quantity else 0.0
  {
    if axis != [] {
      HitOnce(x, axis[1..]);
      assert forall y :: y in axis <==> y == axis[0] || y in axis[1..];
      if x.price == axis[0] {
        assert x.price !in axis[1..];
      }
    }
  }

  lemma {:induction false} CellsTotalEmpty(axis: seq<int>)
    ensures CellsTotal(Cells([], axis)) == 0.0
  {
    if axis != [] {
      assert Cells([], axis)[1..] == Cells([], axis[1..]);
      CellsTotalEmpty(axis[1..]);
    }
  }

  lemma {:induction false} CellsTotalCons(w: seq<Binned>, axis: seq<int>)
    requires w != []
    ensures CellsTotal(Cells(w, axis)) == Hit(w[0], axis) + CellsTotal(Cells(w[1..], axis))
  {
    if axis != [] {
      assert Cells(w, axis)[1..] == Cells(w, axis[1..]);
      assert Cells(w[1..], axis)[1..] == Cells(w[1..], axis[1..]);
      CellsTotalCons(w, axis[1..]);
    }
  }

  /** Summing every cell of an axis that covers all rows counts each row's quantity exactly once. */
  lemma {:induction false} CellsConserve(w: seq<Binned>, axis: seq<int>)
    requires StrictlyDesc(axis)
    requires forall x :: x in w ==> x.price in axis
    ensures CellsTotal(Cells(w, axis)) == Total(w)
  {
    if w == [] {
      CellsTotalEmpty(axis);
    } else {
      assert w[0] in w;
      assert forall x :: x in w[1..] ==> x in w;
      CellsTotalCons(w, axis);
      HitOnce(w[0], axis);
      CellsConserve(w[1..], axis);
    }
  }

  /** With positive quantities, a price carried by some row has a positive two-sided sum. */
  lemma {:induction false} PositiveLevel(w: seq<Binned>, p: int)
    requires forall x :: x in w ==> x.quantity > 0.0
    ensures SumQty(w, p, Bid) + SumQty(w, p, Ask) >= 0.0
    ensures (exists x :: x in w && x.price == p) ==> SumQty(w, p, Bid) + SumQty(w, p, Ask) > 0.0
  {
    if w != [] {
      assert w[0] in w;
      assert forall x :: x in w[1..] ==> x in w;
      assert forall x :: x in w <==> x == w[0] || x in w[1..];
      PositiveLevel(w[1..], p);
    }
  }

  // ---------------------------------------------------------------- properties of the aggregation

  lemma PricesOfEmpty(rows: seq<Row>, side: Side)
    ensures PricesOf(rows, side) == [] <==> forall r :: r in rows ==> r.side != side
  {
    var ps := PricesOf(rows, side);
    if ps != [] {
      assert ps[0] in ps;
    }
  }

  /** How a grid is assembled from the window around its mid. */
  lemma GridAtShape(rows: seq<Row>, bestBid: real, bestAsk: real)
    ensures var o := GridAt(rows, bestBid, bestAsk);
      o.Grid? && o.bestBid == bestBid && o.bestAsk == bestAsk &&
      o.mid == (bestBid + bestAsk) / 2.0 &&
      o.prices == Axis(Visible(rows, o.mid)) &&
      o.cells == Cells(Visible(rows, o.mid), o.prices) &&
      o.total == |o.prices| &&
      o.occupied == CountNonzero(o.cells)
  {
  }

  /** The as-written refresh builds its grid from the highest bid and the lowest ask. */
  lemma AsWrittenShape(rows: seq<Row>)
    ensures var o := AggregateAsWritten(rows);
      o.Grid? ==>
        PricesOf(rows, Bid) != [] && PricesOf(rows, Ask) != [] &&
        o == GridAt(rows, MaxOf(PricesOf(rows, Bid)), MinOf(PricesOf(rows, Ask))) &&
        o.bestBid == MaxOf(PricesOf(rows, Bid)) && o.bestAsk == MinOf(PricesOf(rows, Ask)) &&
        o.mid == (o.bestBid + o.bestAsk) / 2.0 &&
        o.prices == Axis(Visible(rows, o.mid)) &&
        o.cells == Cells(Visible(rows, o.mid), o.prices) &&
        o.total == |o.prices| &&
        o.occupied == CountNonzero(o.cells)
  {
    var bids, asks := PricesOf(rows, Bid), PricesOf(rows, Ask);
    if rows != [] && bids != [] && asks != [] {
      GridAtShape(rows, MaxOf(bids), MinOf(asks));
    }
  }

  /** A grid of the corrected refresh is the as-written grid, with at least one price. */
  lemma GridShape(rows: seq<Row>)
    ensures var o := Aggregate(rows);
      o.Grid? ==>
        o == AggregateAsWritten(rows) &&
        o.prices == Axis(Visible(rows, o.mid)) &&
        o.cells == Cells(Visible(rows, o.mid), o.prices) &&
        o.total == |o.prices| > 0 &&
        o.occupied == CountNonzero(o.cells)
  {
    AsWrittenShape(rows);
  }

  /**
    An empty journal is "loading"; a journal lacking either side has no
    valid levels; otherwise a best bid and ask exist, checked before any binning.
  */
  lemma AggregateStates(rows: seq<Row>)
    ensures Aggregate(rows) == Loading <==> rows == []
    ensures Aggregate(rows) == NoValidLevels <==>
      rows != [] && ((forall r :: r in rows ==> r.side != Bid) || (forall r :: r in rows ==> r.side != Ask))
    ensures Aggregate(rows).Grid? || Aggregate(rows).EmptyWindow? <==>
      (exists r :: r in rows && r.side == Bid) && (exists r :: r in rows && r.side == Ask)
  {
    PricesOfEmpty(rows, Bid);
    PricesOfEmpty(rows, Ask);
  }

  /**
    The best bid is the highest raw bid price, the best ask the lowest raw
    ask price, and the mid their mean.
  */
  lemma AggregateBest(rows: seq<Row>)
    ensures var o := Aggregate(rows);
      o.Grid? || o.EmptyWindow? ==>
        (exists r :: r in rows && r.side == Bid && r.price == o.bestBid) &&
        (forall r :: r in rows && r.side == Bid ==> r.price <= o.bestBid) &&
        (exists r :: r in rows && r.side == Ask && r.price == o.bestAsk) &&
        (forall r :: r in rows && r.side == Ask ==> o.bestAsk <= r.price) &&
        o.mid == (o.bestBid + o.bestAsk) / 2.0
  {
    var o := Aggregate(rows);
    if o.Grid? || o.EmptyWindow? {
      var bids, asks := PricesOf(rows, Bid), PricesOf(rows, Ask);
      assert o.bestBid in bids && o.bestAsk in asks;
      forall r | r in rows && r.side == Bid ensures r.price <= o.bestBid {
        assert r.price in bids;
      }
      forall r | r in rows && r.side == Ask ensures o.bestAsk <= r.price {
        assert r.price in asks;
      }
    }
  }

  /** A visible row is a journal row, binned, whose bin is in the window, and every such row is visible. */
  lemma VisibleRows(rows: seq<Row>, mid: real, p: int)
    ensures (exists x :: x in Visible(rows, mid) && x.price == p) <==>
      InWindow(p, mid) && exists r :: r in rows && Bin(r.price) == p
  {
    var bs := BinRows(rows);
    var w := Visible(rows, mid);
    if exists x :: x in w && x.price == p {
      var x :| x in w && x.price == p;
      var k :| 0 <= k < |bs| && bs[k] == x;
      assert rows[k] in rows;
    }
    if InWindow(p, mid) && exists r :: r in rows && Bin(r.price) == p {
      var r :| r in rows && Bin(r.price) == p;
      var k :| 0 <= k < |rows| && rows[k] == r;
      assert bs[k] in bs && bs[k] in w;
    }
  }

  lemma AxisMembers(w: seq<Binned>, p: int)
    ensures p in Axis(w) <==> exists x :: x in w && x.price == p
  {
    var ps := BinPrices(w);
    if p in ps {
      var i :| 0 <= i < |ps| && ps[i] == p;
      assert w[i] in w;
    }
    if exists x :: x in w && x.price == p {
      var x :| x in w && x.price == p;
      var i :| 0 <= i < |w| && w[i] == x;
      assert ps[i] in ps;
    }
  }

  /**
    Every axis price is a bin inside the window; every in-window bin of a
    journal row is on the axis; the axis is strictly descending, so each
    price appears exactly once.
  */
  lemma AggregateAxis(rows: seq<Row>)
    ensures var o := Aggregate(rows);
      o.Grid? ==>
        o.total == |o.prices| > 0 && StrictlyDesc(o.prices) &&
        (forall i :: 0 <= i < |o.prices| ==> InWindow(o.prices[i], o.mid) && o.prices[i] % Step == 0) &&
        (forall p :: p in o.prices <==> InWindow(p, o.mid) && exists r :: r in rows && Bin(r.price) == p)
  {
    var o := Aggregate(rows);
    if o.Grid? {
      GridShape(rows);
      AxisOfWindow(rows, o.mid);
    }
  }

  /** The axis of the window around any mid: descending, in-window multiples of the step, exactly the visible bins. */
  lemma AxisOfWindow(rows: seq<Row>, mid: real)
    ensures var axis := Axis(Visible(rows, mid));
      StrictlyDesc(axis) &&
      (forall i :: 0 <= i < |axis| ==> InWindow(axis[i], mid) && axis[i] % Step == 0) &&
      (forall p :: p in axis <==> InWindow(p, mid) && exists r :: r in rows && Bin(r.price) == p)
  {
    var w := Visible(rows, mid);
    var axis := Axis(w);
    forall p
      ensures p in axis <==> InWindow(p, mid) && exists r :: r in rows && Bin(r.price) == p
    {
      AxisMembers(w, p);
      VisibleRows(rows, mid, p);
    }
    forall i | 0 <= i < |axis|
      ensures InWindow(axis[i], mid) && axis[i] % Step == 0
    {
      assert axis[i] in axis;
      var r :| r in rows && Bin(r.price) == axis[i];
    }
  }

  /** The cells of the visible rows, read per axis price, are the journal's level sums. */
  lemma VisibleSums(rows: seq<Row>, mid: real, p: int, side: Side)
    requires InWindow(p, mid)
    ensures SumQty(Visible(rows, mid), p, side) == LevelSum(rows, p, side)
  {
    WindowSums(BinRows(rows), mid, p, side);
    BinnedSums(rows, p, side);
  }

  /** A cell at an in-window axis price holds the journal's level sums at that price. */
  lemma CellAt(rows: seq<Row>, mid: real, axis: seq<int>, i: nat)
    requires i < |axis| && InWindow(axis[i], mid)
    ensures Cells(Visible(rows, mid), axis)[i] == Cell(LevelSum(rows, axis[i], Bid), LevelSum(rows, axis[i], Ask))
  {
    VisibleSums(rows, mid, axis[i], Bid);
    VisibleSums(rows, mid, axis[i], Ask);
  }

  /**
    Each cell holds, per side, the summed quantity of the journal rows whose
    price bins to that axis price; a side with no such row reads 0.
  */
  lemma AggregateCells(rows: seq<Row>)
    ensures var o := Aggregate(rows);
      o.Grid? ==>
        |o.cells| == |o.prices| &&
        forall i :: 0 <= i < |o.prices| ==>
          o.cells[i] == Cell(LevelSum(rows, o.prices[i], Bid), LevelSum(rows, o.prices[i], Ask))
  {
    var o := Aggregate(rows);
    if o.Grid? {
      GridShape(rows);
      AxisOfWindow(rows, o.mid);
      forall i | 0 <= i < |o.prices|
        ensures o.cells[i] == Cell(LevelSum(rows, o.prices[i], Bid), LevelSum(rows, o.prices[i], Ask))
      {
        CellAt(rows, o.mid, o.prices, i);
      }
    }
  }

  /** No quantity is lost or counted twice: the grid holds exactly the in-window quantity. */
  lemma AggregateConservation(rows: seq<Row>)
    ensures var o := Aggregate(rows);
      o.Grid? ==> CellsTotal(o.cells) == WindowQuantity(rows, o.mid)
  {
    var o := Aggregate(rows);
    if o.Grid? {
      GridShape(rows);
      WindowConserved(rows, o.mid);
    }
  }

  lemma WindowConserved(rows: seq<Row>, mid: real)
    ensures var w := Visible(rows, mid);
      CellsTotal(Cells(w, Axis(w))) == WindowQuantity(rows, mid)
  {
    var w := Visible(rows, mid);
    var axis := Axis(w);
    forall x | x in w ensures x.price in axis {
      AxisMembers(w, x.price);
    }
    CellsConserve(w, axis);
    WindowTotal(rows, mid);
  }

  /**
    The occupied count never exceeds the axis length, equals it exactly when
    every level has a nonzero two-sided sum, and the percentage lies in [0, 100].
  */
  lemma AggregateOccupancy(rows: seq<Row>)
    ensures var o := Aggregate(rows);
      o.Grid? ==>
        0 < o.total && o.occupied <= o.total &&
        (o.occupied == o.total <==> forall i :: 0 <= i < |o.cells| ==> Occupied(o.cells[i])) &&
        0.0 <= OccupancyPercent(o.occupied, o.total) <= 100.0
  {
    var o := Aggregate(rows);
    if o.Grid? {
      GridShape(rows);
      CountNonzeroFull(o.cells);
    }
  }

  /** When every journal quantity is positive, every visible level is occupied: 100%. */
  lemma FullOccupancy(rows: seq<Row>)
    requires forall r :: r in rows ==> r.quantity > 0.0
    ensures var o := Aggregate(rows);
      o.Grid? ==> o.occupied == o.total && OccupancyPercent(o.occupied, o.total) == 100.0
  {
    var o := Aggregate(rows);
    if o.Grid? {
      GridShape(rows);
      FullWindow(rows, o.mid);
    }
  }

  lemma FullWindow(rows: seq<Row>, mid: real)
    requires forall r :: r in rows ==> r.quantity > 0.0
    ensures var w := Visible(rows, mid);
      CountNonzero(Cells(w, Axis(w))) == |Axis(w)|
  {
    var bs := BinRows(rows);
    var w := Visible(rows, mid);
    var axis := Axis(w);
    var cells := Cells(w, axis);
    forall x | x in w ensures x.quantity > 0.0 {
      var k :| 0 <= k < |bs| && bs[k] == x;
      assert rows[k] in rows;
    }
    forall i | 0 <= i < |cells| ensures Occupied(cells[i]) {
      AxisMembers(w, axis[i]);
      PositiveLevel(w, axis[i]);
    }
    CountNonzeroFull(cells);
  }

  /**
    The window can only come out empty when best bid and best ask are more
    than 7980 apart: otherwise the lower of the two bins inside it.
  */
  lemma NonEmptyWindow(rows: seq<Row>)
    ensures var o := AggregateAsWritten(rows);
      o.Grid? && -7980.0 <= o.bestBid - o.bestAsk <= 7980.0 ==> o.total > 0
  {
    var o := AggregateAsWritten(rows);
    if o.Grid? && -7980.0 <= o.bestBid - o.bestAsk <= 7980.0 {
      AsWrittenShape(rows);
      var low := if o.bestBid <= o.bestAsk then o.bestBid else o.bestAsk;
      assert low in PricesOf(rows, Bid) || low in PricesOf(rows, Ask);
      var r :| r in rows && r.price == low;
      assert InWindow(Bin(r.price), o.mid);
      AxisEmptiness(rows, o.mid);
    }
  }

  /** Under the as-written aggregation, the axis is empty exactly when no journal row bins into the window. */
  lemma WindowEmptiness(rows: seq<Row>)
    ensures var o := AggregateAsWritten(rows);
      o.Grid? ==> (o.total == 0 <==> forall r :: r in rows ==> !InWindow(Bin(r.price), o.mid))
  {
    var o := AggregateAsWritten(rows);
    if o.Grid? {
      AsWrittenShape(rows);
      AxisEmptiness(rows, o.mid);
    }
  }

  /** The axis of a window is empty exactly when no journal row bins into it. */
  lemma AxisEmptiness(rows: seq<Row>, mid: real)
    ensures |Axis(Visible(rows, mid))| == 0 <==> forall r :: r in rows ==> !InWindow(Bin(r.price), mid)
  {
    var w := Visible(rows, mid);
    var axis := Axis(w);
    if |axis| > 0 {
      var p := axis[0];
      AxisMembers(w, p);
      VisibleRows(rows, mid, p);
    }
    if exists r :: r in rows && InWindow(Bin(r.price), mid) {
      var r :| r in rows && InWindow(Bin(r.price), mid);
      VisibleRows(rows, mid, Bin(r.price));
      AxisMembers(w, Bin(r.price));
    }
  }

  // ---------------------------------------------------------------- declarative specification

  predicate HasSide(rows: seq<Row>, side: Side) {
    exists r :: r in rows && r.side == side
  }

  /** `b` is the highest bid price of the journal. */
  predicate IsBestBid(rows: seq<Row>, b: real) {
    (exists r :: r in rows && r.side == Bid && r.price == b) &&
    forall r :: r in rows && r.side == Bid ==> r.price <= b
  }

  /** `a` is the lowest ask price of the journal. */
  predicate IsBestAsk(rows: seq<Row>, a: real) {
    (exists r :: r in rows && r.side == Ask && r.price == a) &&
    forall r :: r in rows && r.side == Ask ==> a <= r.price
  }

  /** `p` is the bin of some journal row and lies in the window around `mid`. */
  predicate VisibleLevel(rows: seq<Row>, mid: real, p: int) {
    InWindow(p, mid) && exists r :: r in rows && Bin(r.price) == p
  }

  /** The three states before any grid: loading, no valid levels, or a book with both sides. */
  ghost predicate DescribesState(rows: seq<Row>, o: Outcome) {
    (rows == [] ==> o == Loading) &&
    (rows != [] && (!HasSide(rows, Bid) || !HasSide(rows, Ask)) ==> o == NoValidLevels) &&
    (HasSide(rows, Bid) && HasSide(rows, Ask) ==> o.Grid? || o.EmptyWindow?)
  }

  /** With both sides present: best bid, best ask, mid, and whether the window is empty. */
  ghost predicate DescribesBest(rows: seq<Row>, o: Outcome)
    requires o.Grid? || o.EmptyWindow?
  {
    IsBestBid(rows, o.bestBid) && IsBestAsk(rows, o.bestAsk) &&
    o.mid == (o.bestBid + o.bestAsk) / 2.0 &&
    (o.EmptyWindow? <==> forall r :: r in rows ==> !InWindow(Bin(r.price), o.mid))
  }

  /** A grid: the descending axis of visible bins, the per-side level sums and the occupied count. */
  ghost predicate DescribesGrid(rows: seq<Row>, o: Outcome)
    requires o.Grid?
  {
    StrictlyDesc(o.prices) &&
    (forall p :: p in o.prices <==> VisibleLevel(rows, o.mid, p)) &&
    |o.cells| == |o.prices| == o.total &&
    (forall i :: 0 <= i < |o.prices| ==>
      o.cells[i] == Cell(LevelSum(rows, o.prices[i], Bid), LevelSum(rows, o.prices[i], Ask))) &&
    o.occupied == CountNonzero(o.cells)
  }

  /**
    What the refresh is meant to show for a journal, stated without the
    pipeline: the loading and no-valid-levels states, best bid, best ask and
    mid, the empty window, and otherwise the descending axis of visible bins
    with the journal's per-side level sums and the occupied count.
  */
  ghost predicate Describes(rows: seq<Row>, o: Outcome) {
    DescribesState(rows, o) &&
    (HasSide(rows, Bid) && HasSide(rows, Ask) ==>
      (o.Grid? || o.EmptyWindow?) && DescribesBest(rows, o) && (o.Grid? ==> DescribesGrid(rows, o)))
  }

  lemma MeetsState(rows: seq<Row>)
    ensures DescribesState(rows, Aggregate(rows))
  {
    AggregateStates(rows);
  }

  lemma MeetsBest(rows: seq<Row>)
    requires Aggregate(rows).Grid? || Aggregate(rows).EmptyWindow?
    ensures DescribesBest(rows, Aggregate(rows))
  {
    AggregateBest(rows);
    WindowEmptiness(rows);
  }

  lemma MeetsGrid(rows: seq<Row>)
    requires Aggregate(rows).Grid?
    ensures DescribesGrid(rows, Aggregate(rows))
  {
    GridShape(rows);
    AggregateAxis(rows);
    AggregateCells(rows);
  }

  /** The pipeline meets the declarative specification. */
  lemma AggregateMeetsSpec(rows: seq<Row>)
    ensures Describes(rows, Aggregate(rows))
  {
    var o := Aggregate(rows);
    MeetsState(rows);
    if HasSide(rows, Bid) && HasSide(rows, Ask) {
      MeetsBest(rows);
      if o.Grid? {
        MeetsGrid(rows);
      }
    }
  }

  /** The specification leaves no freedom: at most one outcome meets it. */
  lemma DescribesUnique(rows: seq<Row>, o1: Outcome, o2: Outcome)
    requires Describes(rows, o1) && Describes(rows, o2)
    ensures o1 == o2
  {
    if HasSide(rows, Bid) && HasSide(rows, Ask) {
      var b1 :| b1 in rows && b1.side == Bid && b1.price == o1.bestBid;
      var b2 :| b2 in rows && b2.side == Bid && b2.price == o2.bestBid;
      var a1 :| a1 in rows && a1.side == Ask && a1.price == o1.bestAsk;
      var a2 :| a2 in rows && a2.side == Ask && a2.price == o2.bestAsk;
      assert o1.bestBid == o2.bestBid && o1.bestAsk == o2.bestAsk;
      if o1.Grid? && o2.Grid? {
        StrictlyDescUnique(o1.prices, o2.prices);
        assert o1.cells == o2.cells;
      }
    }
  }
}
