/**
 * TrendForgeEngine: the symbol index as a mutable object, with ingestion as in-place
 * updates and the three analytics queries over it.
 */
module Engine {
  import opened Results
  import opened StockTicks
  import opened OrderedKeys
  import opened TimeSeries
  import opened SymbolIndex
  import opened Movers
  import opened CsvRecords

  /** The Java exceptions the modelled operations can throw. */
  datatype Failure = IllegalArgumentException | NullPointerException | NumberFormatException

  class TrendForgeEngine {
    /** symbol -> (timestamp -> tick), the ConcurrentHashMap of skip lists. */
    var index: Index

    ghost predicate Valid()
      reads this
    {
      WellFormed(index)
    }

    constructor()
      ensures Valid() && index == map[]
    {
      index := map[];
    }

    /** Creates the symbol's series if absent, then stores the tick under its timestamp. */
    method IngestTick(t: Tick)
      requires Valid()
      modifies this
      ensures Valid()
      ensures index == Put(old(index), t)
    {
      var series: Series := if t.symbol in index then index[t.symbol] else map[];
      index := index[t.symbol := series[t.ts := t]];
      assert index == Put(old(index), t);
    }

    /**
     * Ingests the ticks one after another; the thread count only sizes the pool that
     * the sequential model does without.
     */
    method IngestBulk(ticks: seq<Tick>, threads: int)
      requires Valid()
      modifies this
      ensures Valid()
      ensures index == PutAll(old(index), ticks)
    {
      for j := 0 to |ticks|
        invariant Valid()
        invariant index == PutAll(old(index), ticks[..j])
      {
        assert ticks[..j + 1][..j] == ticks[..j];
        IngestTick(ticks[j]);
      }
      assert ticks[..|ticks|] == ticks;
    }

    /** Hands a batch to bulk ingestion after the ticks flushed before it. */
    method Flush(batch: seq<Tick>, threads: int, ghost start: Index, ghost flushed: seq<Tick>)
      requires Valid() && index == PutAll(start, flushed)
      modifies this
      ensures Valid() && index == PutAll(start, flushed + batch)
    {
      IngestBulk(batch, threads);
      PutAllAppend(start, flushed, batch);
    }

    /**
     * Reads the lines after the header, skipping short ones, and ingests the parsed
     * ticks in batches of BatchSize with a final partial batch. A malformed line
     * aborts the load: the batches already flushed stay ingested, the partial batch
     * is lost.
     */
    method LoadCsv(lines: seq<CsvLine>, threads: int) returns (r: Result<(), Failure>)
      requires Valid()
      modifies this
      ensures Valid()
      ensures r.Ok? <==> Clean(Body(lines))
      ensures r.Err? ==> r.error == NumberFormatException
      ensures index == PutAll(old(index), Ingested(lines))
    {
      var body := Body(lines);
      var batch: seq<Tick> := [];
      ghost var flushed: seq<Tick> := [];
      var i := 0;
      while i < |body|
        invariant Valid()
        invariant Reading(body, i, flushed, batch)
        invariant index == PutAll(old(index), flushed)
      {
        var line := body[i];
        if line.Malformed? {
          StopsAtMalformed(lines, i, flushed, batch);
          return Err(NumberFormatException);
        }
        ghost var flushed', batch' := ReadsLine(body, i, flushed, batch);
        if line.Parsed? {
          batch := batch + [line.tick];
          if |batch| >= BatchSize {
            var toIngest := batch;
            batch := [];
            Flush(toIngest, threads, old(index), flushed);
            flushed := flushed + toIngest;
          }
        }
        assert flushed == flushed' && batch == batch';
        i := i + 1;
      }
      LoadsWholeFile(lines, flushed, batch);
      if batch != [] {
        Flush(batch, threads, old(index), flushed);
      } else {
        assert flushed + batch == flushed;
      }
      return Ok(());
    }

    /** The symbols that have at least one tick. */
    function Symbols(): (r: set<string>)
      reads this
      requires Valid()
      ensures forall s, k :: Lookup(index, s, k).Some? ==> s in r
      ensures forall s :: s in r ==> exists k :: Lookup(index, s, k).Some?
    {
      forall s | s in index ensures exists k :: Lookup(index, s, k).Some? {
        var k := PickOne(index[s].Keys);
        assert Lookup(index, s, k).Some?;
      }
      index.Keys
    }

    /**
     * The symbol's ticks with startTs <= ts <= endTs in ascending order; an unknown
     * symbol gives no ticks, and a known one with startTs > endTs makes `subMap` throw.
     */
    function RangeQuery(symbol: string, startTs: int, endTs: int): (r: Result<seq<Tick>, Failure>)
      reads this
      requires Valid()
      ensures r.Err? <==> symbol in index && startTs > endTs
      ensures r.Err? ==> r.error == IllegalArgumentException
      ensures symbol !in index ==> r == Ok([])
      ensures r.Ok? ==> Ascending(r.value)
      ensures r.Ok? ==> forall i :: 0 <= i < |r.value| ==>
        startTs <= r.value[i].ts <= endTs && Lookup(index, symbol, r.value[i].ts) == Some(r.value[i])
      ensures r.Ok? ==> forall k :: startTs <= k <= endTs && Lookup(index, symbol, k).Some? ==>
        Lookup(index, symbol, k).value in r.value
    {
      if symbol !in index then Ok([])
      else if startTs > endTs then Err(IllegalArgumentException)
      else
        Ok(Range(index[symbol], startTs, endTs))
    }

    /**
     * One pass over the symbol's ticks in ascending order with a FIFO window and a
     * running sum: each tick joins the window, ticks more than windowMs older than it
     * leave from the front, and the window's mean is recorded under its timestamp.
     */
    method SimpleMovingAverage(symbol: string, windowMs: int) returns (result: map<int, Average>)
      requires Valid()
      ensures symbol !in index ==> result == map[]
      ensures symbol in index ==> result == MovingAverages(index[symbol], windowMs)
    {
      if symbol !in index {
        return map[];
      }
      var series := index[symbol];
      ValuesAscending(series);
      result := MovingAveragePass(Values(series), windowMs);
      RowsAreMovingAverages(series, windowMs);
    }

    /**
     * One symbol of topKMovers' loop: scores it from its floors at startTs and endTs
     * and, when it qualifies, offers it to the bounded min-heap. None is the null
     * `peek()` of an empty heap at capacity k <= 0. `seen` are the candidates of the
     * symbols visited before, `rest` the symbols still to visit.
     */
    method Consider(symbol: string, startTs: int, endTs: int, heap: seq<Mover>, k: int,
                    ghost rest: set<string>, ghost seen: map<string, real>)
      returns (next: Option<seq<Mover>>, ghost seen': map<string, real>)
      requires symbol in rest && rest <= index.Keys
      requires seen == QualifyingAmong(index, index.Keys - rest, startTs, endTs)
      requires k >= 1 ==> Retains(heap, seen, k)
      requires k <= 0 ==> heap == [] && seen == map[]
      ensures next.None? ==> k <= 0 && Qualifying(index, startTs, endTs) != map[]
      ensures next.Some? ==> seen' == QualifyingAmong(index, index.Keys - (rest - {symbol}), startTs, endTs)
      ensures next.Some? && k >= 1 ==> Retains(next.value, seen', k)
      ensures next.Some? && k <= 0 ==> next.value == [] && seen' == map[]
    {
      Visit(index, rest, symbol, startTs, endTs, seen, heap, k);
      var score := PercentChange(index[symbol], startTs, endTs);
      if score.None? {
        return Some(heap), seen;
      }
      next := Offer(heap, Mover(symbol, score.value), k);
      seen' := seen[symbol := score.value];
    }

    /**
     * The k best qualifying symbols in descending order of change; with capacity
     * k <= 0 and some qualifying symbol, the null `peek()` throws.
     */
    method TopKMovers(startTs: int, endTs: int, k: int) returns (r: Result<seq<Mover>, Failure>)
      ensures r.Err? <==> k <= 0 && Qualifying(index, startTs, endTs) != map[]
      ensures r.Err? ==> r.error == NullPointerException
      ensures r.Ok? && k <= 0 ==> r.value == []
      ensures r.Ok? && k >= 1 ==> IsTopK(r.value, Qualifying(index, startTs, endTs), k)
    {
      var heap: seq<Mover> := [];
      ghost var seen: map<string, real> := map[];
      var rest := index.Keys;
      while rest != {}
        invariant rest <= index.Keys
        invariant seen == QualifyingAmong(index, index.Keys - rest, startTs, endTs)
        invariant k >= 1 ==> Retains(heap, seen, k)
        invariant k <= 0 ==> heap == [] && seen == map[]
        decreases |rest|
      {
        ghost var inhabitant := PickOne(rest);  // rest has an element, so the choice below exists
        var symbol :| symbol in rest;
        var next;
        next, seen := Consider(symbol, startTs, endTs, heap, k, rest, seen);
        if next.None? {
          return Err(NullPointerException);
        }
        heap := next.value;
        rest := rest - {symbol};
      }
      assert index.Keys - rest == index.Keys;
      if k >= 1 {
        SortRetains(heap, Qualifying(index, startTs, endTs), k);
      }
      r := Ok(SortByChange(heap));
    }
  }
}
