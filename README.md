# TrendForge engine — a Dafny model

This project models `TrendForgeEngine`, the in-memory tick store of TrendForge.
The engine keeps one time series per stock symbol: an ordered map from an
epoch-millisecond timestamp to a `StockTick` (symbol, ts, price, volume). On top
of that store it offers four things:

- ingestion of one tick (`ingestTick`) or of a list of ticks (`ingestBulk`, and
  `loadCsvMultiThreaded`, which feeds it);
- the inclusive range query `rangeQuery`;
- the streaming trailing-window average `simpleMovingAverage`;
- the top-K percentage-movers ranking `topKMovers`, built on two floor lookups
  per symbol and a bounded min-heap.

Modules, leaves first:

- `Results`: `Option` and `Result`.
- `StockTicks`: the `Tick` datatype.
- `OrderedKeys`: least and greatest elements of finite timestamp sets.
- `TimeSeries`: one symbol's series as `map<int, Tick>`, with these operations:
  - ascending listing (`Values`);
  - inclusive sub-range (`Range`);
  - floor lookup (`FloorKey`);
  - the reference trailing mean (`MovingAverages`);
  - the FIFO-window pass that computes it (`MovingAveragePass`).
- `SymbolIndex`: the index `map<string, map<int, Tick>>`, its point update
  `Put`, sequential bulk ingestion `PutAll`, and the order-independence proof.
- `Movers`: qualification and percentage change, the capacity-k min-heap step
  `Offer`, its invariant `Retains`, and the descending sort.
- `CsvRecords`: the loader's lines after splitting and parsing, and batching.
- `Engine`: the class `TrendForgeEngine` with its `index` field and methods.

Prices are exact `real`s and timestamps unbounded `int`s. An SMA row is an
`Average`: `Mean(x)`, or `NaN` for Java's `0.0 / 0` when the window is empty.
The exceptions this model covers are `Err` results:

- `IllegalArgumentException` from `subMap` with `startTs > endTs`;
- `NullPointerException` from `peek()` on an empty heap when `k <= 0`;
- `NumberFormatException` from a CSV field that does not parse.

Edge behaviour of TrendForgeEngine that the model follows:

- `rangeQuery` on a known symbol with `startTs > endTs` throws; it does not
  return an empty list. An unknown symbol returns the empty list for any bounds.
- The SMA evicts only ticks with `cur.ts - ts > windowMs`. The window is
  therefore `[cur.ts - windowMs, cur.ts]`, closed at both ends.
- `topKMovers` with `k <= 0` returns an empty list only when no symbol
  qualifies. Otherwise it throws `NullPointerException`.
- A CSV line with an unparsable number aborts the load. Ticks already handed to
  `ingestBulk` stay ingested, and the partial batch is lost. Only lines with
  fewer than four fields are skipped.
- The first CSV line is always discarded as a header.

## Model

| member | source | states |
|---|---|---|
| `SymbolIndex.Put` | src/main/java/trendforge/TrendForgeEngine.java:14-16 | after ingesting t, (t.symbol, t.ts) holds t; the symbol set gains t.symbol; every other (symbol, ts) lookup is unchanged; the index stays well formed (non-empty series, ticks stored under their own symbol and ts) |
| `SymbolIndex.PutOverwrites` | src/main/java/trendforge/TrendForgeEngine.java:14-16 | a second tick at the same (symbol, ts) overwrites the first: the result is as if only the second had been ingested |
| `SymbolIndex.PutIdempotent` | src/main/java/trendforge/TrendForgeEngine.java:14-16 | ingesting the same tick twice in sequence leaves the same index as ingesting it once |
| `SymbolIndex.PutCommutes` | src/main/java/trendforge/TrendForgeEngine.java:15 | two ingestions whose (symbol, ts) keys differ commute |
| `SymbolIndex.PutAll` | src/main/java/trendforge/TrendForgeEngine.java:18-25 | bulk ingestion as a sequential series of point updates keeps the index well formed |
| `SymbolIndex.PutAllAppend` | src/main/java/trendforge/TrendForgeEngine.java:41-47 | ingesting a + b equals ingesting a and then b, which is what loading in batches relies on |
| `SymbolIndex.LastAt` | src/main/java/trendforge/TrendForgeEngine.java:20-21 | when some tick of the list has the given (symbol, ts), the result is the tick at a position holding that key with no later position holding it (the last occurrence); otherwise None, and no tick of the list has that key |
| `SymbolIndex.PutAllLastWins` | src/main/java/trendforge/TrendForgeEngine.java:18-25 | after sequential bulk ingestion, each (symbol, ts) holds the last tick of the list with that key, or its earlier entry if the list has none |
| `SymbolIndex.Absorb` | src/main/java/trendforge/TrendForgeEngine.java:18-25 | order-free reference for bulk ingestion of ticks with distinct keys: the old index overlaid with the set of ticks; its symbols are the old ones plus the ticks' symbols |
| `SymbolIndex.BulkAbsorbs` | src/main/java/trendforge/TrendForgeEngine.java:18-25 | sequential ingestion of ticks with pairwise distinct keys equals the overlay of their set |
| `SymbolIndex.IngestOrderIndependent` | src/main/java/trendforge/TrendForgeEngine.java:18-25 | for ticks with distinct keys, any permutation of the list (any order in which the pool runs the tasks) gives the same final index |
| `TimeSeries.Values` | src/main/java/trendforge/TrendForgeEngine.java:64 | ascending iteration lists as many ticks as the series stores |
| `TimeSeries.ValuesSpec` | src/main/java/trendforge/TrendForgeEngine.java:64 | the listing is strictly ascending by ts, lists only stored ticks, and lists every stored tick |
| `TimeSeries.WithinSpec` | src/main/java/trendforge/TrendForgeEngine.java:54 | filtering by [lo, hi] keeps exactly the ticks with lo <= ts <= hi, and keeps ascending order |
| `TimeSeries.Range` | src/main/java/trendforge/TrendForgeEngine.java:54 | `subMap(lo, true, hi, true).values()`: strictly ascending, holds only stored ticks in [lo, hi], and holds every stored tick in [lo, hi] |
| `TimeSeries.FloorKey` | src/main/java/trendforge/TrendForgeEngine.java:80-81 | floorEntry(q): none exactly when every stored ts exceeds q; otherwise the greatest stored ts <= q |
| `TimeSeries.FloorUnique` | src/main/java/trendforge/TrendForgeEngine.java:80-81 | any key that is the greatest stored ts <= q is the one the floor lookup returns |
| `TimeSeries.MovingAverages` | src/main/java/trendforge/TrendForgeEngine.java:57-72 | reference SMA: one row per stored tick (same key set as the series), each the mean over the ticks with ts - windowMs <= ts' <= ts |
| `TimeSeries.AverageOf` | src/main/java/trendforge/TrendForgeEngine.java:70 | `sum / window.size()`: NaN exactly for an empty window, otherwise a mean whose product with the window size is the window's price total |
| `TimeSeries.TrailingMean` | src/main/java/trendforge/TrendForgeEngine.java:62-70 | the mean over the stored ticks in [t - windowMs, t]; it is a number exactly when some stored tick lies in that interval |
| `TimeSeries.TrailingMeanDefined` | src/main/java/trendforge/TrendForgeEngine.java:65-70 | the row at a stored tick is a mean exactly when windowMs >= 0, because the window then contains that tick; with windowMs < 0 the window is empty and the division gives NaN |
| `TimeSeries.WindowIsWithin` | src/main/java/trendforge/TrendForgeEngine.java:62-69 | when every earlier tick has age > windowMs and every tick of the run has age <= windowMs, the contiguous run is exactly the ticks in [cur - windowMs, cur] |
| `TimeSeries.Slide` | src/main/java/trendforge/TrendForgeEngine.java:65-69 | appending the tick and evicting from the front while age > windowMs drops only ticks older than windowMs, keeps the front within windowMs, and keeps sum equal to the window's price total |
| `TimeSeries.MovingAveragePass` | src/main/java/trendforge/TrendForgeEngine.java:62-71 | the FIFO-window pass over an ascending listing records, at each tick, the mean of all ticks of the listing within [ts - windowMs, ts] |
| `TimeSeries.RowsAreMovingAverages` | src/main/java/trendforge/TrendForgeEngine.java:57-72 | the pass over a series' ascending listing yields exactly the reference SMA rows |
| `TimeSeries.RowsKeys` | src/main/java/trendforge/TrendForgeEngine.java:70 | the pass records one row per stored timestamp and no other |
| `Movers.PercentChange` | src/main/java/trendforge/TrendForgeEngine.java:80-86 | a symbol gets a score exactly when it has a floor at startTs and one at endTs and the start floor price is > 0 |
| `Movers.PercentChangeAtFloors` | src/main/java/trendforge/TrendForgeEngine.java:80-86 | with floors a at startTs and b at endTs, a symbol qualifies iff the start floor price is > 0, and then its score is (end - start) / start * 100 |
| `Movers.PercentChangeWithoutFloor` | src/main/java/trendforge/TrendForgeEngine.java:82 | a symbol with no tick at or before startTs, or none at or before endTs, does not qualify |
| `Movers.QualifyingAt` | src/main/java/trendforge/TrendForgeEngine.java:77-86 | a symbol of the index is a candidate iff its percentage change exists, and then it carries that change |
| `Movers.ArgMin` | src/main/java/trendforge/TrendForgeEngine.java:89 | peek(): an entry whose change is at most every entry's change |
| `Movers.RemoveAt` | src/main/java/trendforge/TrendForgeEngine.java:90 | `poll()` of the minimum: the heap loses exactly the entry at that position, and every other entry keeps its relative order |
| `Movers.Offer` | src/main/java/trendforge/TrendForgeEngine.java:88-92 | below capacity the candidate is added; at capacity a candidate not strictly above the minimum is turned away; the null peek() happens iff the heap is empty at capacity k <= 0 |
| `Movers.AppendRetains` | src/main/java/trendforge/TrendForgeEngine.java:88 | below capacity, adding the candidate keeps the heap the best min(k, seen) of the candidates seen |
| `Movers.ReplaceRetains` | src/main/java/trendforge/TrendForgeEngine.java:89-91 | at capacity, evicting the minimum for a strictly larger candidate keeps the heap the best k of the candidates seen |
| `Movers.RejectRetains` | src/main/java/trendforge/TrendForgeEngine.java:89 | at capacity, turning away a candidate at or below the minimum keeps the heap the best k of the candidates seen |
| `Movers.OfferRetains` | src/main/java/trendforge/TrendForgeEngine.java:88-92 | with k >= 1 the offer never fails, and the heap keeps exactly min(k, seen) distinct candidates with their own changes, none of them scoring below any candidate left out |
| `Movers.Visit` | src/main/java/trendforge/TrendForgeEngine.java:77-92 | one loop iteration: a non-qualifying symbol leaves the heap and candidates alone; a qualifying one extends the candidates and keeps the heap invariant, or throws only when k <= 0 and some symbol qualifies |
| `Movers.InsertByChange` | src/main/java/trendforge/TrendForgeEngine.java:95 | inserting one entry into a list is a permutation of the list plus that entry |
| `Movers.SortByChange` | src/main/java/trendforge/TrendForgeEngine.java:95 | sorting the heap's entries is a permutation of them |
| `Movers.SortSorted` | src/main/java/trendforge/TrendForgeEngine.java:95 | the sorted list is in descending order of change |
| `Movers.SortRetains` | src/main/java/trendforge/TrendForgeEngine.java:94-96 | sorting the retained heap gives the best min(k, qualifying) candidates, with their changes, in descending order |
| `CsvRecords.Body` | src/main/java/trendforge/TrendForgeEngine.java:30 | the first line is always discarded as a header; the rest follow in order |
| `CsvRecords.ParsedTicks` | src/main/java/trendforge/TrendForgeEngine.java:33-40 | the ticks the loop adds to the batch, in file order; never more ticks than lines |
| `CsvRecords.ParsedTicksSpec` | src/main/java/trendforge/TrendForgeEngine.java:33-40 | the ticks collected are exactly the ticks of the lines that parsed |
| `CsvRecords.CleanPrefix` | src/main/java/trendforge/TrendForgeEngine.java:37-39 | the loader reads up to the first line whose numbers do not parse |
| `CsvRecords.Ingested` | src/main/java/trendforge/TrendForgeEngine.java:27-49 | a clean file ingests every parsed tick; a file with an unparsable line ingests only whole batches of 5000 parsed before it, losing fewer than 5000 ticks |
| `CsvRecords.ReadsLine` | src/main/java/trendforge/TrendForgeEngine.java:33-46 | a short line is skipped; a parsed line joins the batch; a batch reaching 5000 is flushed whole |
| `CsvRecords.StopsAtMalformed` | src/main/java/trendforge/TrendForgeEngine.java:37-39 | a line whose numbers do not parse stops the load with exactly the already flushed batches ingested |
| `CsvRecords.LoadsWholeFile` | src/main/java/trendforge/TrendForgeEngine.java:47 | a load that reaches the end of the file flushes the final partial batch, so every parsed tick is ingested |
| `Engine.TrendForgeEngine.constructor` | src/main/java/trendforge/TrendForgeEngine.java:12 | a new engine has an empty index |
| `Engine.TrendForgeEngine.IngestTick` | src/main/java/trendforge/TrendForgeEngine.java:14-16 | the in-place update leaves the index equal to the point update Put of the old index |
| `Engine.TrendForgeEngine.IngestBulk` | src/main/java/trendforge/TrendForgeEngine.java:18-25 | the loop over the list leaves the index equal to PutAll of the old index, the sequential bulk ingestion |
| `Engine.TrendForgeEngine.Flush` | src/main/java/trendforge/TrendForgeEngine.java:41-47 | handing a batch to bulk ingestion extends what has been ingested by that batch |
| `Engine.TrendForgeEngine.LoadCsv` | src/main/java/trendforge/TrendForgeEngine.java:27-49 | the load succeeds iff no line after the header is malformed; otherwise it fails with NumberFormatException; either way the index becomes PutAll of the old index and the ingested ticks |
| `Engine.TrendForgeEngine.Symbols` | src/main/java/trendforge/TrendForgeEngine.java:99-101 | the symbols are exactly those with at least one stored tick |
| `Engine.TrendForgeEngine.RangeQuery` | src/main/java/trendforge/TrendForgeEngine.java:51-55 | an unknown symbol gives the empty list; a known one with startTs > endTs throws IllegalArgumentException; otherwise the result is strictly ascending, holds only stored ticks in [startTs, endTs], and holds every such tick |
| `Engine.TrendForgeEngine.SimpleMovingAverage` | src/main/java/trendforge/TrendForgeEngine.java:57-73 | an unknown symbol gives the empty map; otherwise the FIFO pass returns exactly the reference rows: one per stored tick, each the trailing-window mean |
| `Engine.TrendForgeEngine.Consider` | src/main/java/trendforge/TrendForgeEngine.java:78-92 | scoring and offering one symbol extends the candidates seen and keeps the heap the best of them, or throws only when k <= 0 and some symbol qualifies |
| `Engine.TrendForgeEngine.TopKMovers` | src/main/java/trendforge/TrendForgeEngine.java:75-97 | throws NullPointerException iff k <= 0 and some symbol qualifies; with k <= 0 otherwise empty; with k >= 1 the best min(k, qualifying) symbols, each with its own change, distinct, in descending order, none scoring below a qualifying symbol left out |

## Left out

- Concurrency in `ingestBulk` (TrendForgeEngine.java:19-24): the fixed thread
  pool, `shutdown` and the 5-minute `awaitTermination` are not modelled. Bulk
  ingestion is a sequential loop, and the `threads` argument is unused.
  `IngestOrderIndependent` stands in for the claim that the pool's task order
  does not matter when keys are distinct.
- Same-timestamp races: when two concurrent inserts share (symbol, ts), which one
  wins is nondeterministic. A sequential model cannot express that.
  `PutAllLastWins` gives the sequential answer instead.
- `ConcurrentHashMap` weak consistency: queries running during ingestion are not
  modelled. `Symbols` is the current key set. The `tree == null` skip at line 79
  cannot happen without a concurrent removal, so it is not modelled.
- The iteration order of `index.keySet()` is unspecified. `TopKMovers` visits the
  symbols in an arbitrary order of its own choice, and its contract holds for
  every order.
- The binary-heap layout of `PriorityQueue` is not modelled. The heap is an
  unordered sequence, and `peek()` is one least-change entry (`ArgMin`).
- Engine.TrendForgeEngine.TopKMovers: among candidates tied at the capacity
  boundary, the contract does not say which one is kept. Among tied entries, it
  does not fix the output order. Java's heap and sort order define both.
- IEEE-754 doubles: prices, sums, averages and percentages are exact reals.
  Rounding drift in the running sum, Infinity, and NaN prices are not modelled.
  The `NaN` row of an empty window is modelled.
- Java `long`/`int` widths: timestamps and volumes are unbounded integers.
  Overflow in `tick.ts - front.ts` for extreme timestamps is not modelled.
- CSV file I/O in `loadCsvMultiThreaded` (lines 29-33, 48): reading the file,
  `split(",")` and `Long.parseLong`/`Double.parseDouble` are outside the model.
  The loader receives lines already classified as short, malformed or parsed.
- Null symbols and null ticks are not modelled, because a Dafny `string` or `Tick`
  cannot be null. With a null symbol, `computeIfAbsent` (line 15) and `index.get`
  (lines 52, 58) throw NullPointerException. The HTTP layer can pass such a symbol
  when a field or parameter is missing.
- The `InterruptedException` that `ingestBulk` declares through `awaitTermination`
  (line 24) is not modelled, because the model has no threads to interrupt.
- `StockTick.toString` (StockTick.java:17-19): `%.4f` formatting is not part of
  this model.
- TrendForgeServer.java (HTTP routes and JSON) and generate_data.py (random CSV
  generator) are not part of this model.
