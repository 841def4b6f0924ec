/**
 * One symbol's time series (ConcurrentSkipListMap<Long, StockTick>) and the
 * per-series queries that TrendForgeEngine builds on it: ascending iteration,
 * inclusive sub-range, floor lookup and the trailing-window mean.
 */
module TimeSeries {
  import opened Results
  import opened StockTicks
  import opened OrderedKeys

  /** Ticks of one symbol keyed by timestamp. */
  type Series = map<int, Tick>

  /** Every stored tick sits under its own timestamp (ingestTick puts at key tick.ts). */
  predicate KeyedByTs(series: Series) {
    forall k :: k in series ==> series[k].ts == k
  }

  /** Timestamps strictly increase along the sequence. */
  predicate Ascending(s: seq<Tick>) {
    forall i, j :: 0 <= i < j < |s| ==> s[i].ts < s[j].ts
  }

  /** The stored ticks in ascending timestamp order, as `tree.values()` iterates them. */
  function Values(series: Series): (r: seq<Tick>)
    requires KeyedByTs(series)
    ensures |r| == |series|
    decreases |series|
  {
    if series == map[] then []
    else
      var m := Least(series.Keys);
      var rest := series - {m};
      assert |rest| == |series| - 1;
      [series[m]] + Values(rest)
  }
  lemma ConsAscending(x: Tick, tail: seq<Tick>)
    requires Ascending(tail)
    requires forall i :: 0 <= i < |tail| ==> x.ts < tail[i].ts
    ensures Ascending([x] + tail)
  {
    var r := [x] + tail;
    forall i, j | 0 <= i < j < |r| ensures r[i].ts < r[j].ts {
      assert r[j] == tail[j - 1];
      if i > 0 {
        assert r[i] == tail[i - 1];
      }
    }
  }

  lemma {:induction false} ValuesStored(series: Series)
    requires KeyedByTs(series)
    ensures forall i :: 0 <= i < |Values(series)| ==>
      Values(series)[i].ts in series && series[Values(series)[i].ts] == Values(series)[i]
    decreases |series|
  {
    if series != map[] {
      var m := Least(series.Keys);
      var rest := series - {m};
      assert |rest| == |series| - 1;
      ValuesStored(rest);
      var tail := Values(rest);
      var r := Values(series);
      assert r == [series[m]] + tail;
      forall i | 0 <= i < |r| ensures r[i].ts in series && series[r[i].ts] == r[i] {
        if i > 0 {
          assert r[i] == tail[i - 1];
          assert tail[i - 1].ts in rest;
        }
      }
    }
  }

  lemma {:induction false} ValuesComplete(series: Series)
    requires KeyedByTs(series)
    ensures forall k :: k in series ==> series[k] in Values(series)
    decreases |series|
  {
    if series != map[] {
      var m := Least(series.Keys);
      var rest := series - {m};
      assert |rest| == |series| - 1;
      ValuesComplete(rest);
      var tail := Values(rest);
      var r := Values(series);
      assert r == [series[m]] + tail;
      forall k | k in series ensures series[k] in r {
        if k != m {
          assert k in rest;
          assert rest[k] in tail;
        }
      }
    }
  }

  lemma {:induction false} ValuesAscending(series: Series)
    requires KeyedByTs(series)
    ensures Ascending(Values(series))
    decreases |series|
  {
    if series != map[] {
      var m := Least(series.Keys);
      var rest := series - {m};
      assert |rest| == |series| - 1;
      ValuesAscending(rest);
      ValuesStored(rest);
      var tail := Values(rest);
      assert Values(series) == [series[m]] + tail;
      assert forall i :: 0 <= i < |tail| ==> tail[i].ts in rest;
      ConsAscending(series[m], tail);
    }
  }

  /** Values lists exactly the stored ticks, each once, in ascending timestamp order. */
  lemma ValuesSpec(series: Series)
    requires KeyedByTs(series)
    ensures Ascending(Values(series))
    ensures forall i :: 0 <= i < |Values(series)| ==>
      Values(series)[i].ts in series && series[Values(series)[i].ts] == Values(series)[i]
    ensures forall k :: k in series ==> series[k] in Values(series)
  {
    ValuesStored(series);
    ValuesComplete(series);
    ValuesAscending(series);
  }

  /** The ticks of `s` whose timestamp lies in [lo, hi], in the order of `s`. */
  function Within(s: seq<Tick>, lo: int, hi: int): seq<Tick> {
    if s == [] then []
    else if lo <= s[0].ts <= hi then [s[0]] + Within(s[1..], lo, hi)
    else Within(s[1..], lo, hi)
  }

  /** Within keeps exactly the ticks in [lo, hi], and keeps an ascending order. */
  lemma {:induction false} WithinSpec(s: seq<Tick>, lo: int, hi: int)
    ensures forall t :: t in Within(s, lo, hi) <==> t in s && lo <= t.ts <= hi
    ensures Ascending(s) ==> Ascending(Within(s, lo, hi))
  {
    if s != [] {
      WithinSpec(s[1..], lo, hi);
      assert forall t :: t in s <==> t == s[0] || t in s[1..];
      if lo <= s[0].ts <= hi {
        if Ascending(s) {
          var tail := Within(s[1..], lo, hi);
          assert forall i :: 0 <= i < |tail| ==> tail[i] in s[1..];
          forall i | 0 <= i < |tail| ensures s[0].ts < tail[i].ts {
            var h :| 0 <= h < |s[1..]| && s[1..][h] == tail[i];
            assert s[1 + h] == tail[i];
          }
          ConsAscending(s[0], tail);
        }
      }
    }
  }

  lemma {:induction false} WithinAppend(a: seq<Tick>, b: seq<Tick>, lo: int, hi: int)
    ensures Within(a + b, lo, hi) == Within(a, lo, hi) + Within(b, lo, hi)
  {
    if a == [] {
      assert a + b == b;
    } else {
      assert (a + b)[0] == a[0] && (a + b)[1..] == a[1..] + b;
      WithinAppend(a[1..], b, lo, hi);
    }
  }

  /** Filtering keeps everything when every tick is in range. */
  lemma {:induction false} WithinAll(s: seq<Tick>, lo: int, hi: int)
    requires forall i :: 0 <= i < |s| ==> lo <= s[i].ts <= hi
    ensures Within(s, lo, hi) == s
  {
    if s != [] {
      WithinAll(s[1..], lo, hi);
    }
  }

  /** Filtering keeps nothing when no tick is in range. */
  lemma {:induction false} WithinNone(s: seq<Tick>, lo: int, hi: int)
    requires forall i :: 0 <= i < |s| ==> s[i].ts < lo || hi < s[i].ts
    ensures Within(s, lo, hi) == []
  {
    if s != [] {
      WithinNone(s[1..], lo, hi);
    }
  }

  /**
   * The inclusive sub-range [lo, hi] of the series in ascending order
   * (`subMap(lo, true, hi, true).values()`): strictly ascending, only stored ticks
   * with lo <= ts <= hi, and every one of them. With lo > hi no tick qualifies; the
   * sub-map's refusal of such bounds is modelled by the engine's RangeQuery.
   */
  function Range(series: Series, lo: int, hi: int): (r: seq<Tick>)
    requires KeyedByTs(series)
    ensures Ascending(r)
    ensures forall i :: 0 <= i < |r| ==> lo <= r[i].ts <= hi && r[i].ts in series && series[r[i].ts] == r[i]
    ensures forall k :: k in series && lo <= k <= hi ==> series[k] in r
  {
    ValuesSpec(series);
    WithinSpec(Values(series), lo, hi);
    Within(Values(series), lo, hi)
  }

  /** `k` is the greatest stored timestamp at or below `q`. */
  ghost predicate IsFloor(series: Series, q: int, k: int) {
    k in series && k <= q && forall k' :: k' in series && k' <= q ==> k' <= k
  }

  /** The key of `floorEntry(q)`: the greatest stored timestamp <= q, if any. */
  function FloorKey(series: Series, q: int): (r: Option<int>)
    ensures r.None? <==> forall k :: k in series ==> k > q
    ensures r.Some? ==> IsFloor(series, q, r.value)
  {
    var below := set k | k in series && k <= q;
    if below == {} then
      assert forall k :: k in series && k <= q ==> k in below;
      None
    else
      var g := Greatest(below);
      assert forall k :: k in series && k <= q ==> k in below;
      Some(g)
  }

  /** The floor is unique: a key satisfying IsFloor is the one FloorKey finds. */
  lemma FloorUnique(series: Series, q: int, k: int)
    requires IsFloor(series, q, k)
    ensures FloorKey(series, q) == Some(k)
  {
  }

  /**
   * The FIFO window of simpleMovingAverage after processing ticks[..i+1] is the
   * contiguous run ticks[lo..i+1]: when every earlier tick is older than windowMs
   * relative to ticks[i] and every tick of the run is not, the run is exactly the
   * ticks of the whole ascending sequence within [ticks[i].ts - windowMs, ticks[i].ts].
   */
  lemma WindowIsWithin(ticks: seq<Tick>, lo: nat, i: nat, windowMs: int)
    requires Ascending(ticks)
    requires lo <= i + 1 && i < |ticks|
    requires forall j :: 0 <= j < lo ==> ticks[i].ts - ticks[j].ts > windowMs
    requires forall j :: lo <= j <= i ==> ticks[i].ts - ticks[j].ts <= windowMs
    ensures Within(ticks, ticks[i].ts - windowMs, ticks[i].ts) == ticks[lo..i + 1]
  {
    var cur := ticks[i].ts;
    var before, run, after := ticks[..lo], ticks[lo..i + 1], ticks[i + 1..];
    assert ticks == before + run + after;
    forall j | 0 <= j < |before| ensures before[j].ts < cur - windowMs || cur < before[j].ts {
      assert before[j] == ticks[j];
    }
    forall j | 0 <= j < |run| ensures cur - windowMs <= run[j].ts <= cur {
      assert run[j] == ticks[lo + j];
      assert lo + j == i || ticks[lo + j].ts < ticks[i].ts;
    }
    forall j | 0 <= j < |after| ensures after[j].ts < cur - windowMs || cur < after[j].ts {
      assert after[j] == ticks[i + 1 + j];
      assert ticks[i].ts < ticks[i + 1 + j].ts;
    }
    var from := cur - windowMs;
    calc {
      Within(ticks, from, cur);
      Within(before + run + after, from, cur);
      { WithinAppend(before + run, after, from, cur); }
      Within(before + run, from, cur) + Within(after, from, cur);
      { WithinAppend(before, run, from, cur); }
      Within(before, from, cur) + Within(run, from, cur) + Within(after, from, cur);
      { WithinNone(before, from, cur); WithinAll(run, from, cur); WithinNone(after, from, cur); }
      [] + run + [];
      run;
    }
  }

  /** Sum of the prices of a window, front to back. */
  function SumPrices(s: seq<Tick>): real {
    if s == [] then 0.0 else s[0].price + SumPrices(s[1..])
  }

  lemma {:induction false} SumPricesAppend(s: seq<Tick>, t: Tick)
    ensures SumPrices(s + [t]) == SumPrices(s) + t.price
  {
    if s != [] {
      assert (s + [t])[1..] == s[1..] + [t];
      SumPricesAppend(s[1..], t);
    }
  }

  /**
   * A moving-average row: the mean price of the window, or NaN, which is what the
   * double division `sum / window.size()` yields when the window is empty.
   */
  datatype Average = Mean(value: real) | NaN

  /** `sum / window.size()`: a mean whose multiple by the window size is the price total. */
  function AverageOf(window: seq<Tick>): (r: Average)
    ensures r.NaN? <==> window == []
    ensures r.Mean? ==> r.value * |window| as real == SumPrices(window)
  {
    if window == [] then NaN else Mean(SumPrices(window) / |window| as real)
  }

  /**
   * Reference definition of simpleMovingAverage over one series: one row per stored
   * tick, holding the mean price over the ticks whose timestamp lies in
   * [ts - windowMs, ts].
   */
  function MovingAverages(series: Series, windowMs: int): (r: map<int, Average>)
    requires KeyedByTs(series)
    ensures r.Keys == series.Keys
  {
    map k | k in series :: TrailingMean(series, windowMs, k)
  }

  /** The mean price over the stored ticks with t - windowMs <= ts <= t. */
  function TrailingMean(series: Series, windowMs: int, t: int): (r: Average)
    requires KeyedByTs(series)
    ensures r.Mean? <==> exists k :: k in series && t - windowMs <= k <= t
  {
    var window := Range(series, t - windowMs, t);
    assert window != [] ==> window[0].ts in series && t - windowMs <= window[0].ts <= t;
    AverageOf(window)
  }

  /**
   * The row of a stored tick is a mean exactly when windowMs >= 0: the window then
   * holds at least that tick, and with windowMs < 0 it holds nothing, so the division
   * by the window size is 0.0 / 0.
   */
  lemma TrailingMeanDefined(series: Series, windowMs: int, t: int)
    requires KeyedByTs(series) && t in series
    ensures TrailingMean(series, windowMs, t).Mean? <==> windowMs >= 0
    ensures windowMs >= 0 ==> series[t] in Range(series, t - windowMs, t)
  {
  }

  /**
   * The rows one pass over `ticks` has recorded after its first n ticks: each tick's
   * trailing mean under its timestamp.
   */
  function Rows(ticks: seq<Tick>, windowMs: int, n: nat): map<int, Average>
    requires n <= |ticks|
  {
    if n == 0 then map[]
    else
      var t := ticks[n - 1];
      Rows(ticks, windowMs, n - 1)[t.ts := AverageOf(Within(ticks, t.ts - windowMs, t.ts))]
  }

  /** Every one of the first n ticks has a row. */
  lemma {:induction false} RowsCover(ticks: seq<Tick>, windowMs: int, n: nat)
    requires n <= |ticks|
    ensures forall j :: 0 <= j < n ==> ticks[j].ts in Rows(ticks, windowMs, n)
  {
    if n > 0 {
      RowsCover(ticks, windowMs, n - 1);
    }
  }

  /** Every row belongs to one of the first n ticks. */
  lemma {:induction false} RowsOnlyTicks(ticks: seq<Tick>, windowMs: int, n: nat)
    requires n <= |ticks|
    ensures forall k :: k in Rows(ticks, windowMs, n) ==> exists j :: 0 <= j < n && ticks[j].ts == k
  {
    if n > 0 {
      RowsOnlyTicks(ticks, windowMs, n - 1);
      forall k | k in Rows(ticks, windowMs, n) ensures exists j :: 0 <= j < n && ticks[j].ts == k {
        if k != ticks[n - 1].ts {
          assert k in Rows(ticks, windowMs, n - 1);
          var j :| 0 <= j < n - 1 && ticks[j].ts == k;
        }
      }
    }
  }

  /** Each row holds the trailing mean of `ticks` at its timestamp. */
  lemma {:induction false} RowsMeans(ticks: seq<Tick>, windowMs: int, n: nat)
    requires n <= |ticks|
    ensures forall k :: k in Rows(ticks, windowMs, n) ==>
      Rows(ticks, windowMs, n)[k] == AverageOf(Within(ticks, k - windowMs, k))
  {
    if n > 0 {
      RowsMeans(ticks, windowMs, n - 1);
      var before := Rows(ticks, windowMs, n - 1);
      forall k | k in Rows(ticks, windowMs, n)
        ensures Rows(ticks, windowMs, n)[k] == AverageOf(Within(ticks, k - windowMs, k))
      {
        if k != ticks[n - 1].ts {
          assert k in before && Rows(ticks, windowMs, n)[k] == before[k];
        }
      }
    }
  }

  /** A pass over the whole ascending listing has a row for exactly the stored timestamps. */
  lemma RowsKeys(series: Series, windowMs: int)
    requires KeyedByTs(series)
    ensures Rows(Values(series), windowMs, |series|).Keys == series.Keys
  {
    var ticks := Values(series);
    var rows := Rows(ticks, windowMs, |ticks|);
    RowsCover(ticks, windowMs, |ticks|);
    RowsOnlyTicks(ticks, windowMs, |ticks|);
    ValuesStored(series);
    ValuesComplete(series);
    forall k | k in series ensures k in rows {
      var j :| 0 <= j < |ticks| && ticks[j] == series[k];
    }
    forall k | k in rows ensures k in series {
      var j :| 0 <= j < |ticks| && ticks[j].ts == k;
    }
  }

  lemma TrailingMeanIsWithin(series: Series, windowMs: int, t: int)
    requires KeyedByTs(series)
    ensures TrailingMean(series, windowMs, t) == AverageOf(Within(Values(series), t - windowMs, t))
  {
  }

  /** Each row of a pass over the whole ascending listing is the trailing mean of the series. */
  lemma RowsAreTrailingMeans(series: Series, windowMs: int)
    requires KeyedByTs(series)
    ensures forall k :: k in Rows(Values(series), windowMs, |series|) ==>
      Rows(Values(series), windowMs, |series|)[k] == TrailingMean(series, windowMs, k)
  {
    var ticks := Values(series);
    RowsMeans(ticks, windowMs, |ticks|);
    forall k | k in Rows(ticks, windowMs, |ticks|)
      ensures Rows(ticks, windowMs, |ticks|)[k] == TrailingMean(series, windowMs, k)
    {
      TrailingMeanIsWithin(series, windowMs, k);
    }
  }

  /** A pass over the whole ascending listing of a series yields the reference rows. */
  lemma RowsAreMovingAverages(series: Series, windowMs: int)
    requires KeyedByTs(series)
    ensures Rows(Values(series), windowMs, |series|) == MovingAverages(series, windowMs)
  {
    var rows, expected := Rows(Values(series), windowMs, |series|), MovingAverages(series, windowMs);
    RowsKeys(series, windowMs);
    RowsAreTrailingMeans(series, windowMs);
    SameRows(rows, expected);
  }

  /** Two row maps with the same timestamps and the same averages are equal. */
  lemma SameRows(a: map<int, Average>, b: map<int, Average>)
    requires a.Keys == b.Keys && forall k :: k in a ==> a[k] == b[k]
    ensures a == b
  {
    forall k | k in a ensures a[k] == b[k] {
    }
  }

  lemma StillOld(ticks: seq<Tick>, lo: nat, i: nat, windowMs: int)
    requires Ascending(ticks) && 0 < i < |ticks| && lo <= i
    requires forall j :: 0 <= j < lo ==> ticks[i - 1].ts - ticks[j].ts > windowMs
    ensures forall j :: 0 <= j < lo ==> ticks[i].ts - ticks[j].ts > windowMs
  {
  }

  lemma WindowAverage(ticks: seq<Tick>, windowMs: int, lo: nat, i: nat, window: seq<Tick>, sum: real)
    requires Ascending(ticks) && lo <= i + 1 && i < |ticks|
    requires window == ticks[lo..i + 1] && sum == SumPrices(window)
    requires forall j :: 0 <= j < lo ==> ticks[i].ts - ticks[j].ts > windowMs
    requires lo <= i ==> ticks[i].ts - ticks[lo].ts <= windowMs
    ensures (if |window| == 0 then NaN else Mean(sum / |window| as real))
      == AverageOf(Within(ticks, ticks[i].ts - windowMs, ticks[i].ts))
  {
    forall j | lo <= j <= i ensures ticks[i].ts - ticks[j].ts <= windowMs {
      assert j == lo || ticks[lo].ts < ticks[j].ts;
    }
    WindowIsWithin(ticks, lo, i, windowMs);
  }

  /**
   * Appends the tick to the window and evicts from the front every tick more than
   * windowMs older than it, keeping `sum` the window's price total.
   */
  method Slide(window: seq<Tick>, sum: real, tick: Tick, windowMs: int)
    returns (window': seq<Tick>, sum': real, ghost dropped: nat)
    requires sum == SumPrices(window)
    ensures dropped <= |window| + 1 && window' == (window + [tick])[dropped..]
    ensures sum' == SumPrices(window')
    ensures forall j :: 0 <= j < dropped ==> tick.ts - (window + [tick])[j].ts > windowMs
    ensures window' != [] ==> tick.ts - window'[0].ts <= windowMs
  {
    SumPricesAppend(window, tick);
    window' := window + [tick];
    sum' := sum + tick.price;
    dropped := 0;
    while window' != [] && tick.ts - window'[0].ts > windowMs
      invariant dropped <= |window| + 1 && window' == (window + [tick])[dropped..]
      invariant sum' == SumPrices(window')
      invariant forall j :: 0 <= j < dropped ==> tick.ts - (window + [tick])[j].ts > windowMs
      decreases |window'|
    {
      sum' := sum' - window'[0].price;
      window' := window'[1..];
      dropped := dropped + 1;
    }
  }

  /** After Slide, the window is the run of ticks from lo + dropped up to and including tick i. */
  lemma SlidWindow(ticks: seq<Tick>, lo: nat, i: nat, prev: seq<Tick>, dropped: nat, window: seq<Tick>)
    requires lo <= i < |ticks| && prev == ticks[lo..i]
    requires dropped <= |prev| + 1 && window == (prev + [ticks[i]])[dropped..]
    ensures window == ticks[lo + dropped..i + 1]
    ensures forall j :: 0 <= j < dropped ==> (prev + [ticks[i]])[j] == ticks[lo + j]
  {
    assert prev + [ticks[i]] == ticks[lo..i + 1];
  }

  /** Every tick before the new window start is more than windowMs older than tick i. */
  lemma SlidPast(ticks: seq<Tick>, windowMs: int, lo: nat, i: nat, prev: seq<Tick>, dropped: nat)
    requires Ascending(ticks) && lo <= i < |ticks| && |prev| == i - lo && dropped <= |prev| + 1
    requires i > 0 ==> forall j :: 0 <= j < lo ==> ticks[i - 1].ts - ticks[j].ts > windowMs
    requires forall j :: 0 <= j < dropped ==> (prev + [ticks[i]])[j] == ticks[lo + j]
    requires forall j :: 0 <= j < dropped ==> ticks[i].ts - (prev + [ticks[i]])[j].ts > windowMs
    ensures forall j :: 0 <= j < lo + dropped ==> ticks[i].ts - ticks[j].ts > windowMs
  {
    if i > 0 {
      StillOld(ticks, lo, i, windowMs);
    }
    forall j | lo <= j < lo + dropped ensures ticks[i].ts - ticks[j].ts > windowMs {
      assert (prev + [ticks[i]])[j - lo] == ticks[j];
    }
  }

  /** The rows of the first i + 1 ticks add the trailing mean at tick i to those of the first i. */
  lemma RowsNext(ticks: seq<Tick>, windowMs: int, i: nat, result: map<int, Average>, avg: Average)
    requires i < |ticks| && result == Rows(ticks, windowMs, i)
    requires avg == AverageOf(Within(ticks, ticks[i].ts - windowMs, ticks[i].ts))
    ensures result[ticks[i].ts := avg] == Rows(ticks, windowMs, i + 1)
  {
  }

  /** One pass step: the window after Slide is the run ticks[lo + dropped..i+1], and its row extends Rows. */
  lemma Step(ticks: seq<Tick>, windowMs: int, lo: nat, i: nat, prev: seq<Tick>, dropped: nat, window: seq<Tick>,
             sum: real, result: map<int, Average>)
    requires Ascending(ticks) && lo <= i < |ticks| && prev == ticks[lo..i]
    requires result == Rows(ticks, windowMs, i)
    requires i > 0 ==> forall j :: 0 <= j < lo ==> ticks[i - 1].ts - ticks[j].ts > windowMs
    requires dropped <= |prev| + 1 && window == (prev + [ticks[i]])[dropped..]
    requires sum == SumPrices(window)
    requires forall j :: 0 <= j < dropped ==> ticks[i].ts - (prev + [ticks[i]])[j].ts > windowMs
    requires window != [] ==> ticks[i].ts - window[0].ts <= windowMs
    ensures window == ticks[lo + dropped..i + 1]
    ensures forall j :: 0 <= j < lo + dropped ==> ticks[i].ts - ticks[j].ts > windowMs
    ensures result[ticks[i].ts := if |window| == 0 then NaN else Mean(sum / |window| as real)]
      == Rows(ticks, windowMs, i + 1)
  {
    SlidWindow(ticks, lo, i, prev, dropped, window);
    SlidPast(ticks, windowMs, lo, i, prev, dropped);
    WindowAverage(ticks, windowMs, lo + dropped, i, window, sum);
    RowsNext(ticks, windowMs, i, result, if |window| == 0 then NaN else Mean(sum / |window| as real));
  }

  method MovingAveragePass(ticks: seq<Tick>, windowMs: int) returns (result: map<int, Average>)
    requires Ascending(ticks)
    ensures result == Rows(ticks, windowMs, |ticks|)
  {
    result := map[];
    var window: seq<Tick> := [];
    var sum := 0.0;
    ghost var lo: nat := 0;
    for i := 0 to |ticks|
      invariant lo <= i
      invariant window == ticks[lo..i]
      invariant sum == SumPrices(window)
      invariant i > 0 ==> forall j :: 0 <= j < lo ==> ticks[i - 1].ts - ticks[j].ts > windowMs
      invariant result == Rows(ticks, windowMs, i)
    {
      var tick := ticks[i];
      ghost var prev, dropped := window, 0;
      window, sum, dropped := Slide(window, sum, tick, windowMs);
      Step(ticks, windowMs, lo, i, prev, dropped, window, sum, result);
      lo := lo + dropped;
      result := result[tick.ts := if |window| == 0 then NaN else Mean(sum / |window| as real)];
    }
  }
}
