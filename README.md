# Order-book heatmap: journal and aggregation

This project models the core of `pruebaStream.py`, a live BTC/USDT order-book heatmap.
A snapshot of the depth book (or a fixed placeholder book when the snapshot cannot be fetched)
seeds a shared, append-only journal of `(price, quantity, side)` rows. Each depth-update message
from the feed is normalised into bid rows followed by ask rows, and those rows are appended under
a lock. On each refresh a copy of the journal is reduced to a grid:

- the distinct price levels per side;
- the loading and no-valid-levels states;
- best bid, best ask and their mid;
- prices floored to bins of 10;
- a window of ±4000 around the mid;
- a descending price axis;
- per-(price, side) summed quantities with zero fill;
- the share of price levels that hold any quantity.

Modules:

- `Wrappers`: the `Option` type.
- `Decimal`: a reader for the decimal strings the feed carries. It stands in for Python's
  `float(str)`.
- `Journal`: rows, depth messages, normalisation, and the `OrderBook` class. The class holds the
  `journal` field and the `ApplyUpdate` method, which parses with a loop. Also the placeholder
  book and replay over a stream of messages.
- `Heatmap`: binning, windowing, the axis, the pivot cells, the occupancy, and the whole refresh
  as `Aggregate`. `Describes` is a declarative specification of the refresh. The lemmas
  `AggregateMeetsSpec` and `DescribesUnique` show that it determines the pipeline's result exactly.
- `Scenarios`: concrete books and messages worked through the general lemmas:
  - the placeholder book;
  - an aligned ladder;
  - a crossed book whose window is empty;
  - parsed, malformed and mis-shaped messages.

Prices and quantities are exact `real`s. `Bin(p)` is `floor(p / 10) * 10` as an integer, the same
as Python's `p // 10 * 10` on floats, including negative prices.

## Model

| member | source | states |
|---|---|---|
| Decimal.ParseDecimal | pruebaStream.py:44-46 | The stand-in for `float(str)`, `None` for a rejected string. Its contract is carried by the lemmas `ParseNatString`, `ParsePointed`, `ParseSignedPointed`, `ParseRejectsForeign` and `ParseRejectsDigitless` |
| Decimal.ParseNatString | pruebaStream.py:44 | Reading back a natural number's decimal rendering, with or without a leading '-', gives that number |
| Decimal.ParsePointed | pruebaStream.py:44-46 | `whole.frac` made of digits reads as the whole part plus the fraction over 10^len(frac) |
| Decimal.ParseSignedPointed | pruebaStream.py:44-46 | `-whole.frac` reads as minus the unsigned value, and `+whole.frac` as the unsigned value |
| Decimal.ParseRejectsForeign | pruebaStream.py:44-46 | On the ASCII decimal grammar the model reads, a string holding a character that is not an ASCII digit, a sign or '.' does not parse |
| Decimal.ParseRejectsDigitless | pruebaStream.py:44-46 | "", "." and "-" do not parse |
| Journal.ParseEntry | pruebaStream.py:43-46 | One entry unpacks into a row only when it holds exactly two strings and both parse. Carried by `NormalizeSideAccepts`, `NormalizeSideRows` and `Scenarios.WrongArity` |
| Journal.Normalize | pruebaStream.py:42-46 | The rows of one message: all bids tagged Bid, then all asks tagged Ask, or nothing when any entry fails. Carried by `NormalizeSpec` |
| Journal.NormalizeSideAccepts | pruebaStream.py:43-46 | One side's update list is accepted exactly when every entry unpacks into two strings that both parse |
| Journal.NormalizeSideRows | pruebaStream.py:43-46 | An accepted list yields one row per entry, in order, the i-th row parsed from the i-th entry |
| Journal.NormalizeSpec | pruebaStream.py:42-47 | A message is accepted iff every "b" and "a" entry parses (an absent key is an empty list); the rows are the bids tagged Bid then the asks tagged Ask, and their count is the sum of the two list lengths |
| Journal.ParseSide | pruebaStream.py:43-46 | The loop over one side's entries returns exactly the normalisation of that list, or None at the first bad entry |
| Journal.OrderBook.ApplyUpdate | pruebaStream.py:40-50 | Reports success exactly when the message normalises. The old journal stays a prefix. A failure leaves the journal unchanged. A success appends exactly one row per entry, bids then asks |
| Journal.OrderBook.constructor | pruebaStream.py:62-63 | The shared book starts as the snapshot rows |
| Journal.OrderBook.Snapshot | pruebaStream.py:76-77 | The refresh's copy equals the journal |
| Journal.Applied | pruebaStream.py:49-50 | The journal after one message: the message's rows appended when it normalises, otherwise unchanged. Carried by `OrderBook.ApplyUpdate`, whose new journal is `Applied`, and by `ReplayGrowth` |
| Journal.ReplayGrowth | pruebaStream.py:49-53 | Over any stream of messages the starting journal stays a prefix, and the journal grows by exactly the rows of the accepted messages |
| Journal.FallbackBook | pruebaStream.py:33-38 | The placeholder book has 8 rows: four bids then four asks, at prices 28000, 28100, 28200, 28300 on each side |
| Heatmap.PricesOf | pruebaStream.py:89-90 | A side's prices are exactly the prices of that side's rows |
| Heatmap.MaxOf | pruebaStream.py:89 | The result is one of the prices and no price exceeds it |
| Heatmap.MinOf | pruebaStream.py:90 | The result is one of the prices and no price is below it |
| Heatmap.DistinctCountBounds | pruebaStream.py:79-80 | `nunique` is at most the number of values and zero only for no values |
| Heatmap.LevelCounts | pruebaStream.py:79-80 | The number of distinct bid prices and of distinct ask prices. Carried by `LevelCountsBounds` |
| Heatmap.LevelCountsBounds | pruebaStream.py:79-80 | Each displayed level count is at most that side's row count, and zero exactly when the side has no row |
| Heatmap.Bin | pruebaStream.py:96-97 | A bin is a multiple of 10, at most the price, and within 10 above it |
| Heatmap.BinFixed | pruebaStream.py:96-97 | A multiple of 10 is its own bin |
| Heatmap.BinIdempotent | pruebaStream.py:96-97 | Binning a bin changes nothing |
| Heatmap.BinMonotone | pruebaStream.py:96-97 | Binning preserves the order of prices |
| Heatmap.Window | pruebaStream.py:100-101 | The filtered rows are exactly the binned rows whose bin lies within 4000 of the mid |
| Heatmap.Axis | pruebaStream.py:103 | The descending distinct bins of the window. Carried by `AxisOfWindow` and `AggregateAxis` |
| Heatmap.Cells | pruebaStream.py:104-105 | One cell per axis price. Carried by `CellAt` (for any mid, each in-window axis price's cell holds the journal's bid and ask `LevelSum` at that price), `AggregateCells` (the same for every line of the refresh's grid) and `LevelSumAbsent` (a side with no row at that price sums to 0, the zero fill) |
| Heatmap.CellAt | pruebaStream.py:101-105 | For any mid, the pivot cell at an in-window axis price holds, per side, the total quantity of the journal rows that bin to that price |
| Heatmap.LevelSumAbsent | pruebaStream.py:104-105 | A price with no journal row on a side sums to 0 on that side, the pivot's `fill_value=0` |
| Heatmap.SortedDistinct | pruebaStream.py:103 | The axis is strictly descending and holds exactly the input's values |
| Heatmap.StrictlyDescUnique | pruebaStream.py:103 | Two strictly descending sequences with the same members are equal, so the axis is determined by its set |
| Heatmap.CountNonzero | pruebaStream.py:115 | The number of cells with a nonzero two-sided sum, at most the number of cells. Carried further by `CountNonzeroFull` |
| Heatmap.CountNonzeroFull | pruebaStream.py:115 | The occupied count equals the number of cells exactly when every cell has a nonzero two-sided sum |
| Heatmap.OccupancyAsWritten | pruebaStream.py:114-116 | The percentage as the code computes it, undefined (`None`) for an empty axis, and equal to `OccupancyPercent` whenever the axis is non-empty. Also carried by `Scenarios.WideCrossEmptyWindow` |
| Heatmap.OccupancyPercent | pruebaStream.py:113-116 | For a non-empty axis the percentage lies in [0, 100]; it is 100 iff all levels are occupied and 0 iff none is |
| Heatmap.AggregateAsWritten | pruebaStream.py:85-116 | The refresh as the code is written, an axis of length 0 included. Carried by `WindowEmptiness`, `NonEmptyWindow` and `Scenarios.WideCrossEmptyWindow` |
| Heatmap.Aggregate | pruebaStream.py:85-116 | The corrected refresh, which reports an empty window instead of a grid with no levels. Carried by `AggregateMeetsSpec` and `DescribesUnique`: it is the one outcome the declarative description admits |
| Heatmap.AggregateStates | pruebaStream.py:85-93 | The refresh reports loading iff the journal is empty, no valid levels iff it is non-empty but lacks a side, and otherwise a grid or an empty window |
| Heatmap.AggregateBest | pruebaStream.py:89-95 | Best bid is the highest raw bid price, best ask the lowest raw ask price, and mid their mean |
| Heatmap.AggregateAxis | pruebaStream.py:96-103 | The axis is non-empty, strictly descending, made of multiples of 10 inside the window, and holds exactly the in-window bins of journal rows |
| Heatmap.AggregateCells | pruebaStream.py:104-105 | Each grid line holds, per side, the total quantity of the journal rows that bin to that price, 0 for none |
| Heatmap.AggregateConservation | pruebaStream.py:101-105 | The grid's cells sum to the total quantity of the journal rows that fall in the window |
| Heatmap.AggregateOccupancy | pruebaStream.py:113-116 | The occupied count is at most the axis length, equals it iff every line is occupied, and the percentage lies in [0, 100] |
| Heatmap.FullOccupancy | pruebaStream.py:104-116 | When every quantity is positive every visible level is occupied: 100% |
| Heatmap.NonEmptyWindow | pruebaStream.py:95-103 | With best bid and best ask within 7980 of each other, the window holds at least one bin |
| Heatmap.AxisEmptiness | pruebaStream.py:100-103 | For any mid, the axis of the window is empty exactly when no journal row bins into it |
| Heatmap.AxisOfWindow | pruebaStream.py:96-103 | For any mid, the axis is strictly descending, made of in-window multiples of 10, and holds exactly the in-window bins of journal rows |
| Heatmap.WindowConserved | pruebaStream.py:101-105 | For any mid, the pivot cells of the window sum to the window's total quantity |
| Heatmap.FullWindow | pruebaStream.py:104-115 | For any mid, when all quantities are positive every line of the pivot is occupied |
| Heatmap.WindowEmptiness | pruebaStream.py:100-103 | The axis is empty exactly when no journal row bins into the window |
| Heatmap.AggregateMeetsSpec | pruebaStream.py:79-116 | The refresh meets the declarative description: states, best prices, mid, empty window, descending axis of visible bins, level sums and occupied count |
| Heatmap.DescribesUnique | pruebaStream.py:85-116 | The declarative description admits only one outcome per journal |
| Scenarios.FallbackGrid | pruebaStream.py:33-38 | The placeholder book gives best bid 28300, best ask 28000, mid 28150, axis 28300..28000 and lines (5,9), (15,7), (20,12), (10,8), all four occupied |
| Scenarios.LadderGrid | pruebaStream.py:89-116 | Bids 100x5, 90x3 and asks 110x4, 120x2 give mid 105, axis [120, 110, 100, 90], lines (0,2), (0,4), (5,0), (3,0), and 100% occupancy |
| Scenarios.WideCrossEmptyWindow | pruebaStream.py:95-116 | An ask at 28000 and a bid at 38000: the code as written builds an axis of length 0 and its occupancy divides by zero; the corrected refresh reports the empty window at mid 33000 |
| Scenarios.OneBidMessage | pruebaStream.py:40-50 | A message with one bid entry of two decimal integers and no "a" key appends exactly that bid row, with those values |
| Scenarios.MalformedMessage | pruebaStream.py:40-50 | A message whose ask price is "abc" normalises to nothing and leaves the journal unchanged, even though its bid parses |
| Scenarios.WrongArity | pruebaStream.py:43 | An entry of three strings or of one string is rejected |

## Left out

- The HTTP snapshot fetch (lines 16-31) and its conversion of the response into rows are not modelled. `OrderBook`'s constructor takes the snapshot rows as a parameter. Only the fallback rows (lines 33-38) are modelled.
- The WebSocket connection, the background thread and `time.sleep` (lines 52-67) are not modelled. `on_message` reduces to a call of `ApplyUpdate` on an already-decoded message.
- `json.loads` is not modelled. `DepthMessage` is the decoded message: `None` stands for an absent "b" or "a" key, and each entry is the list of strings it holds.
- Decimal.ParseDecimal: it reads only `[+-]digits[.digits]` with at least one ASCII digit. Python's `float` also accepts exponents, surrounding whitespace, underscores, "inf" and "nan", and non-ASCII Unicode decimal digits such as "٣"; those inputs are not modelled.
- Decimal.ParseRejectsForeign: the rejection holds for the ASCII grammar above only. Python's `float` accepts some strings it rejects, such as "1e3", " 1", "1_0", "inf" and "٣".
- Prices and quantities are exact reals. IEEE double rounding, and NaN values inside the journal, are not modelled. The `pd.isna` test at line 91 is modelled as "that side has no row".
- Journal.OrderBook.ApplyUpdate: in the source, a bad entry raises inside `aplicar_update` before the lock is taken. The model returns `false` and leaves the journal unchanged, and does not model the exception itself reaching the WebSocket library.
- Journal.OrderBook.ApplyUpdate: the lock is modelled as the single assignment to `journal`. Concurrent interleavings are not modelled.
- `np.log1p` colour scaling (line 109), the clock (line 111), the Streamlit text and warnings, and the Plotly figure (lines 119-153) are not modelled.
- Heatmap.Cells: pandas orders the pivot columns alphabetically as (ask, bid), and it drops the column of a side with no in-window row. The model always keeps both sides, as `Cell(bid, ask)` with 0 for a missing side. This gives the same sums and the same occupied count.

## Findings

| source | as written | input that shows it | evidently intended | confidence | as-written member | corrected member |
|---|---|---|---|---|---|---|
| pruebaStream.py:114-116 | When no binned price lies within 4000 of the mid, `y_vals` is empty and `occupied_levels / total_levels` divides by zero | Journal with an ask at 28000 and a bid at 38000: mid 33000, window [29000, 37000], neither bin inside | Report an empty visible range instead of dividing. Heatmap.Aggregate returns a separate EmptyWindow outcome, and Heatmap.AggregateOccupancy proves the percentage of every grid it returns lies in [0, 100] | medium, not executed | Scenarios.WideCrossEmptyWindow | Heatmap.Aggregate |
