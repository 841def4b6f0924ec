/**
 * topKMovers of TrendForgeEngine: the qualification of a symbol by two floor
 * lookups, its percentage change, the capacity-k min-heap step and the final
 * descending sort.
 */
module Movers {
  import opened Results
  import opened StockTicks
  import opened TimeSeries
  import opened SymbolIndex

  /** Map.Entry<String, Double>: a symbol and its percentage change. */
  datatype Mover = Mover(symbol: string, change: real)

  /**
   * The percentage change of one series from the floor at startTs to the floor at
   * endTs; None when a floor is missing or the start price is not positive.
   */
  function PercentChange(series: Series, startTs: int, endTs: int): (r: Option<real>)
    ensures r.Some? <==>
      exists a, b :: IsFloor(series, startTs, a) && IsFloor(series, endTs, b) && series[a].price > 0.0
  {
    var startKey, endKey := FloorKey(series, startTs), FloorKey(series, endTs);
    if startKey.None? || endKey.None? then None
    else
      var a, b := startKey.value, endKey.value;
      if series[a].price <= 0.0 then None
      else
        assert IsFloor(series, startTs, a) && IsFloor(series, endTs, b);
        Some(Growth(series[a].price, series[b].price))
  }

  /** `(endPrice - startPrice) / startPrice * 100.0`, the percentage change. */
  function Growth(startPrice: real, endPrice: real): real
    requires startPrice != 0.0
  {
    (endPrice - startPrice) / startPrice * 100.0
  }

  /**
   * With floors `a` at startTs and `b` at endTs, the symbol qualifies exactly when the
   * start price is positive, and then scores (end - start) / start * 100.
   */
  lemma PercentChangeAtFloors(series: Series, startTs: int, endTs: int, a: int, b: int)
    requires IsFloor(series, startTs, a) && IsFloor(series, endTs, b)
    ensures PercentChange(series, startTs, endTs).Some? <==> series[a].price > 0.0
    ensures series[a].price > 0.0 ==>
      PercentChange(series, startTs, endTs) == Some((series[b].price - series[a].price) / series[a].price * 100.0)
  {
    FloorUnique(series, startTs, a);
    FloorUnique(series, endTs, b);
    assert PercentChange(series, startTs, endTs)
      == if series[a].price <= 0.0 then None else Some(Growth(series[a].price, series[b].price));
  }

  /** A symbol with no tick at or before startTs, or none at or before endTs, does not qualify. */
  lemma PercentChangeWithoutFloor(series: Series, startTs: int, endTs: int)
    requires (forall k :: k in series ==> k > startTs) || (forall k :: k in series ==> k > endTs)
    ensures PercentChange(series, startTs, endTs) == None
  {
  }

  /** The symbols among `done` that qualify, with their percentage changes. */
  ghost function QualifyingAmong(index: Index, done: set<string>, startTs: int, endTs: int): map<string, real> {
    map s | s in done && s in index && PercentChange(index[s], startTs, endTs).Some? ::
      PercentChange(index[s], startTs, endTs).value
  }

  /** The qualifying symbols of the whole index with their percentage changes. */
  ghost function Qualifying(index: Index, startTs: int, endTs: int): map<string, real> {
    QualifyingAmong(index, index.Keys, startTs, endTs)
  }

  /**
   * Visiting one more symbol of the index adds it to the candidates exactly when its
   * percentage change exists.
   */
  lemma QualifyingStep(index: Index, rest: set<string>, s: string, startTs: int, endTs: int)
    requires s in rest && rest <= index.Keys
    ensures PercentChange(index[s], startTs, endTs).None? ==>
      QualifyingAmong(index, index.Keys - (rest - {s}), startTs, endTs)
      == QualifyingAmong(index, index.Keys - rest, startTs, endTs)
    ensures PercentChange(index[s], startTs, endTs).Some? ==>
      QualifyingAmong(index, index.Keys - (rest - {s}), startTs, endTs)
      == QualifyingAmong(index, index.Keys - rest, startTs, endTs)[s := PercentChange(index[s], startTs, endTs).value]
  {
    assert index.Keys - (rest - {s}) == (index.Keys - rest) + {s};
  }

  /** A symbol of the index is a candidate exactly when its percentage change exists. */
  lemma QualifyingAt(index: Index, s: string, startTs: int, endTs: int)
    requires s in index
    ensures s in Qualifying(index, startTs, endTs) <==> PercentChange(index[s], startTs, endTs).Some?
    ensures s in Qualifying(index, startTs, endTs) ==>
      Qualifying(index, startTs, endTs)[s] == PercentChange(index[s], startTs, endTs).value
  {
  }

  function SymbolsIn(movers: seq<Mover>): set<string> {
    set m | m in movers :: m.symbol
  }

  predicate DistinctSymbols(movers: seq<Mover>) {
    forall i, j :: 0 <= i < j < |movers| ==> movers[i].symbol != movers[j].symbol
  }

  /** Changes do not increase along the sequence. */
  predicate SortedByChange(movers: seq<Mover>) {
    forall i, j :: 0 <= i < j < |movers| ==> movers[i].change >= movers[j].change
  }

  function Min(a: int, b: int): int {
    if a <= b then a else b
  }

  /**
   * `heap` holds the best min(k, |seen|) of the candidates `seen` (symbol -> change):
   * each entry is a seen candidate with its change, no symbol twice, nothing was
   * left out while there was room, and every candidate left out scores at most
   * every entry kept.
   */
  ghost predicate Retains(heap: seq<Mover>, seen: map<string, real>, k: int) {
    && Entries(heap, seen)
    && DistinctSymbols(heap)
    && |heap| == Min(k, |seen|)
    && (|heap| < k ==> forall s :: s in seen ==> s in SymbolsIn(heap))
    && Dominates(heap, seen)
  }

  /** Each entry is a candidate with its own change. */
  ghost predicate Entries(heap: seq<Mover>, seen: map<string, real>) {
    forall i :: 0 <= i < |heap| ==> heap[i].symbol in seen && heap[i].change == seen[heap[i].symbol]
  }

  /** Every candidate left out scores at most every entry. */
  ghost predicate Dominates(heap: seq<Mover>, seen: map<string, real>) {
    forall s, i :: s in seen && s !in SymbolsIn(heap) && 0 <= i < |heap| ==> seen[s] <= heap[i].change
  }

  /** The index of a least-change entry: what `minHeap.peek()` returns. */
  function ArgMin(heap: seq<Mover>): (m: nat)
    requires heap != []
    ensures m < |heap|
    ensures forall j :: 0 <= j < |heap| ==> heap[m].change <= heap[j].change
  {
    if |heap| == 1 then 0
    else
      var m := ArgMin(heap[1..]);
      if heap[0].change <= heap[1 + m].change then 0 else 1 + m
  }

  function RemoveAt(s: seq<Mover>, m: nat): (r: seq<Mover>)
    requires m < |s|
    ensures |r| == |s| - 1
    ensures forall i :: 0 <= i < m ==> r[i] == s[i]
    ensures forall i :: m <= i < |r| ==> r[i] == s[i + 1]
  {
    s[..m] + s[m + 1..]
  }

  /**
   * One candidate offered to the bounded min-heap: added while there is room;
   * otherwise it replaces the minimum only when its change is strictly greater.
   * None when the heap is full at capacity k <= 0, where `peek()` yields null.
   */
  function Offer(heap: seq<Mover>, e: Mover, k: int): (r: Option<seq<Mover>>)
    ensures r.None? <==> heap == [] && k <= 0
    ensures |heap| < k ==> r == Some(heap + [e])
    ensures |heap| >= k && heap != [] && e.change <= heap[ArgMin(heap)].change ==> r == Some(heap)
  {
    if |heap| < k then Some(heap + [e])
    else if heap == [] then None
    else
      var m := ArgMin(heap);
      if e.change > heap[m].change then Some(RemoveAt(heap, m) + [e]) else Some(heap)
  }

  lemma AppendSymbols(s: seq<Mover>, e: Mover)
    requires DistinctSymbols(s) && e.symbol !in SymbolsIn(s)
    ensures DistinctSymbols(s + [e])
    ensures SymbolsIn(s + [e]) == SymbolsIn(s) + {e.symbol}
  {
    var r := s + [e];
    assert forall i :: 0 <= i < |s| ==> r[i] == s[i] && s[i] in s;
    assert forall x :: x in r <==> x in s || x == e;
  }

  lemma RemoveAtSymbols(s: seq<Mover>, m: nat)
    requires DistinctSymbols(s) && m < |s|
    ensures DistinctSymbols(RemoveAt(s, m))
    ensures SymbolsIn(RemoveAt(s, m)) == SymbolsIn(s) - {s[m].symbol}
    ensures forall x :: x in RemoveAt(s, m) ==> x in s
  {
    var r := RemoveAt(s, m);
    forall i, j | 0 <= i < j < |r| ensures r[i].symbol != r[j].symbol {
      var hi, hj := if i < m then i else i + 1, if j < m then j else j + 1;
      assert r[i] == s[hi] && r[j] == s[hj];
    }
    forall x | x in SymbolsIn(s) - {s[m].symbol} ensures x in SymbolsIn(r) {
      var y :| y in s && y.symbol == x;
      var iy :| 0 <= iy < |s| && s[iy] == y;
      assert y == r[if iy < m then iy else iy - 1];
    }
    forall x | x in r ensures x in s && x.symbol != s[m].symbol {
      var iy :| 0 <= iy < |r| && r[iy] == x;
      var h := if iy < m then iy else iy + 1;
      assert s[h] == x;
    }
  }

  /** While there is room, the candidate is appended and the heap keeps the best of all seen. */
  lemma AppendRetains(heap: seq<Mover>, seen: map<string, real>, e: Mover, k: int)
    requires k >= 1 && Retains(heap, seen, k) && e.symbol !in seen && |heap| < k
    ensures Retains(heap + [e], seen[e.symbol := e.change], k)
  {
    var r, seen' := heap + [e], seen[e.symbol := e.change];
    assert |seen'| == |seen| + 1 && |r| == Min(k, |seen'|);
    assert forall i :: 0 <= i < |heap| ==> heap[i].symbol != e.symbol;
    AppendSymbols(heap, e);
    assert Entries(r, seen') by {
      forall i | 0 <= i < |r| ensures r[i].symbol in seen' && r[i].change == seen'[r[i].symbol] {
        if i < |heap| {
          assert r[i] == heap[i];
        }
      }
    }
    assert forall s :: s in seen' ==> s in SymbolsIn(r);
    assert Dominates(r, seen');
  }

  /**
   * After an eviction, a candidate outside the heap (the evicted one, or one left out
   * before) scores at most any entry of the new heap.
   */
  lemma EvictedBound(heap: seq<Mover>, seen: map<string, real>, e: Mover, s: string, x: Mover)
    requires heap != [] && Entries(heap, seen) && Dominates(heap, seen)
    requires e.change > heap[ArgMin(heap)].change
    requires s in seen && (s == heap[ArgMin(heap)].symbol || s !in SymbolsIn(heap))
    requires x == e || x in heap
    ensures seen[s] <= x.change
  {
    var m := ArgMin(heap);
    if x != e {
      var h :| 0 <= h < |heap| && heap[h] == x;
      assert heap[m].change <= heap[h].change;
    } else if s != heap[m].symbol {
      assert seen[s] <= heap[m].change;
    }
  }

  /** The entries after an eviction are the kept entries and the newcomer, with their changes. */
  lemma EvictEntries(heap: seq<Mover>, seen: map<string, real>, e: Mover)
    requires heap != [] && Entries(heap, seen) && e.symbol !in seen
    ensures Entries(RemoveAt(heap, ArgMin(heap)) + [e], seen[e.symbol := e.change])
    ensures forall x :: x in RemoveAt(heap, ArgMin(heap)) + [e] ==> x == e || x in heap
  {
    var kept := RemoveAt(heap, ArgMin(heap));
    var r := kept + [e];
    forall i | 0 <= i < |r| ensures r[i] == e || r[i] in heap {
      if i < |kept| {
        assert r[i] == kept[i] && kept[i] in kept;
      }
    }
    forall i | 0 <= i < |r| ensures r[i].symbol in seen[e.symbol := e.change] && r[i].change == seen[e.symbol := e.change][r[i].symbol] {
      if r[i] != e {
        var h :| 0 <= h < |heap| && heap[h] == r[i];
      }
    }
  }

  /** After an eviction, every candidate outside the heap scores at most every entry. */
  lemma EvictDominates(heap: seq<Mover>, seen: map<string, real>, e: Mover)
    requires heap != [] && Entries(heap, seen) && Dominates(heap, seen) && e.symbol !in seen
    requires e.change > heap[ArgMin(heap)].change
    requires SymbolsIn(RemoveAt(heap, ArgMin(heap)) + [e]) == SymbolsIn(heap) - {heap[ArgMin(heap)].symbol} + {e.symbol}
    requires forall x :: x in RemoveAt(heap, ArgMin(heap)) + [e] ==> x == e || x in heap
    ensures Dominates(RemoveAt(heap, ArgMin(heap)) + [e], seen[e.symbol := e.change])
  {
    var r := RemoveAt(heap, ArgMin(heap)) + [e];
    var seen' := seen[e.symbol := e.change];
    forall s, i | s in seen' && s !in SymbolsIn(r) && 0 <= i < |r| ensures seen'[s] <= r[i].change {
      assert r[i] in r;
      EvictedBound(heap, seen, e, s, r[i]);
    }
  }

  /** At capacity, a candidate above the minimum evicts it. */
  lemma ReplaceRetains(heap: seq<Mover>, seen: map<string, real>, e: Mover, k: int)
    requires k >= 1 && Retains(heap, seen, k) && e.symbol !in seen && |heap| >= k
    requires e.change > heap[ArgMin(heap)].change
    ensures Retains(RemoveAt(heap, ArgMin(heap)) + [e], seen[e.symbol := e.change], k)
  {
    var m := ArgMin(heap);
    var kept := RemoveAt(heap, m);
    assert |seen[e.symbol := e.change]| == |seen| + 1;
    RemoveAtSymbols(heap, m);
    assert e.symbol !in SymbolsIn(kept);
    AppendSymbols(kept, e);
    EvictEntries(heap, seen, e);
    EvictDominates(heap, seen, e);
  }

  /** At capacity, a candidate at or below the minimum is turned away. */
  lemma RejectRetains(heap: seq<Mover>, seen: map<string, real>, e: Mover, k: int)
    requires k >= 1 && Retains(heap, seen, k) && e.symbol !in seen && |heap| >= k
    requires e.change <= heap[ArgMin(heap)].change
    ensures Retains(heap, seen[e.symbol := e.change], k)
  {
    var seen' := seen[e.symbol := e.change];
    var m := ArgMin(heap);
    assert |seen'| == |seen| + 1;
    assert Entries(heap, seen') by {
      forall i | 0 <= i < |heap| ensures heap[i].symbol in seen' && heap[i].change == seen'[heap[i].symbol] {
        assert heap[i].symbol != e.symbol;
      }
    }
    assert Dominates(heap, seen') by {
      forall s, i | s in seen' && s !in SymbolsIn(heap) && 0 <= i < |heap| ensures seen'[s] <= heap[i].change {
        if s == e.symbol {
          assert heap[m].change <= heap[i].change;
        }
      }
    }
  }

  /** Offering a new candidate keeps the best min(k, |seen|) of the candidates seen. */
  lemma OfferRetains(heap: seq<Mover>, seen: map<string, real>, e: Mover, k: int)
    requires k >= 1 && Retains(heap, seen, k) && e.symbol !in seen
    ensures Offer(heap, e, k).Some?
    ensures Retains(Offer(heap, e, k).value, seen[e.symbol := e.change], k)
  {
    if |heap| < k {
      AppendRetains(heap, seen, e, k);
    } else if e.change > heap[ArgMin(heap)].change {
      ReplaceRetains(heap, seen, e, k);
    } else {
      RejectRetains(heap, seen, e, k);
    }
  }

  /**
   * One symbol visited by the loop of topKMovers: a symbol that does not qualify
   * leaves the heap alone; a qualifying one is offered to it, which keeps the best of
   * the candidates seen, or finds it empty at capacity k <= 0.
   */
  lemma Visit(index: Index, rest: set<string>, s: string, startTs: int, endTs: int,
              seen: map<string, real>, heap: seq<Mover>, k: int)
    requires s in rest && rest <= index.Keys
    requires seen == QualifyingAmong(index, index.Keys - rest, startTs, endTs)
    requires k >= 1 ==> Retains(heap, seen, k)
    requires k <= 0 ==> heap == [] && seen == map[]
    ensures PercentChange(index[s], startTs, endTs).None? ==>
      seen == QualifyingAmong(index, index.Keys - (rest - {s}), startTs, endTs)
    ensures PercentChange(index[s], startTs, endTs).Some? ==>
      var e := Mover(s, PercentChange(index[s], startTs, endTs).value);
      && (Offer(heap, e, k).None? ==> k <= 0 && Qualifying(index, startTs, endTs) != map[])
      && (Offer(heap, e, k).Some? ==>
        && k >= 1
        && seen[s := e.change] == QualifyingAmong(index, index.Keys - (rest - {s}), startTs, endTs)
        && Retains(Offer(heap, e, k).value, seen[s := e.change], k))
  {
    QualifyingStep(index, rest, s, startTs, endTs);
    var score := PercentChange(index[s], startTs, endTs);
    if score.Some? {
      var e := Mover(s, score.value);
      if Offer(heap, e, k).None? {
        QualifyingAt(index, s, startTs, endTs);
      } else {
        OfferRetains(heap, seen, e, k);
      }
    }
  }

  /**
   * Inserts `e` in front of the first entry whose change it equals or exceeds: into
   * a list in descending order of change, the place that keeps the order.
   */
  function InsertByChange(e: Mover, s: seq<Mover>): (r: seq<Mover>)
    ensures multiset(r) == multiset(s) + multiset{e}
  {
    if s == [] || e.change >= s[0].change then [e] + s
    else
      assert s == [s[0]] + s[1..];
      [s[0]] + InsertByChange(e, s[1..])
  }

  /** Every entry of the insertion is `e` or an entry of `s`. */
  lemma InsertMembers(e: Mover, s: seq<Mover>)
    ensures forall x :: x in InsertByChange(e, s) ==> x == e || x in s
  {
    var r := InsertByChange(e, s);
    forall x | x in r ensures x == e || x in s {
      assert x in multiset(r);
    }
  }

  lemma ConsSorted(x: Mover, tail: seq<Mover>)
    requires SortedByChange(tail) && forall y :: y in tail ==> x.change >= y.change
    ensures SortedByChange([x] + tail)
  {
    var r := [x] + tail;
    forall i, j | 0 <= i < j < |r| ensures r[i].change >= r[j].change {
      assert r[j] == tail[j - 1] && tail[j - 1] in tail;
      if i > 0 {
        assert r[i] == tail[i - 1];
      }
    }
  }

  lemma ConsDistinct(x: Mover, tail: seq<Mover>)
    requires DistinctSymbols(tail) && forall y :: y in tail ==> x.symbol != y.symbol
    ensures DistinctSymbols([x] + tail)
  {
    var r := [x] + tail;
    forall i, j | 0 <= i < j < |r| ensures r[i].symbol != r[j].symbol {
      assert r[j] == tail[j - 1] && tail[j - 1] in tail;
      if i > 0 {
        assert r[i] == tail[i - 1];
      }
    }
  }

  /** The rest of a sorted list is sorted and bounded by its head; likewise for distinct symbols. */
  lemma TailSortedDistinct(s: seq<Mover>)
    requires s != []
    ensures SortedByChange(s) ==> SortedByChange(s[1..]) && forall y :: y in s[1..] ==> s[0].change >= y.change
    ensures DistinctSymbols(s) ==> DistinctSymbols(s[1..]) && forall y :: y in s[1..] ==> s[0].symbol != y.symbol
  {
    assert forall i :: 0 <= i < |s[1..]| ==> s[1..][i] == s[i + 1];
    assert forall y :: y in s[1..] ==> exists h :: 1 <= h < |s| && s[h] == y;
  }

  lemma {:induction false} InsertSorted(e: Mover, s: seq<Mover>)
    requires SortedByChange(s)
    ensures SortedByChange(InsertByChange(e, s))
  {
    if s == [] || e.change >= s[0].change {
      forall y | y in s ensures e.change >= y.change {
        var h :| 0 <= h < |s| && s[h] == y;
      }
      ConsSorted(e, s);
    } else {
      TailSortedDistinct(s);
      InsertSorted(e, s[1..]);
      InsertMembers(e, s[1..]);
      ConsSorted(s[0], InsertByChange(e, s[1..]));
    }
  }

  lemma {:induction false} InsertDistinct(e: Mover, s: seq<Mover>)
    requires DistinctSymbols(s) && e.symbol !in SymbolsIn(s)
    ensures DistinctSymbols(InsertByChange(e, s))
  {
    forall y | y in s ensures e.symbol != y.symbol {
      assert y.symbol in SymbolsIn(s);
    }
    if s == [] || e.change >= s[0].change {
      ConsDistinct(e, s);
    } else {
      TailSortedDistinct(s);
      assert s[0] in s;
      assert SymbolsIn(s[1..]) <= SymbolsIn(s);
      InsertDistinct(e, s[1..]);
      InsertMembers(e, s[1..]);
      ConsDistinct(s[0], InsertByChange(e, s[1..]));
    }
  }

  /**
   * `out.sort((a, b) -> Double.compare(b.getValue(), a.getValue()))`: the entries
   * rearranged (insertion sort) into descending order of change.
   */
  function SortByChange(s: seq<Mover>): (r: seq<Mover>)
    ensures multiset(r) == multiset(s)
  {
    if s == [] then []
    else
      assert s == [s[0]] + s[1..];
      InsertByChange(s[0], SortByChange(s[1..]))
  }

  lemma {:induction false} SortSorted(s: seq<Mover>)
    ensures SortedByChange(SortByChange(s))
  {
    if s != [] {
      SortSorted(s[1..]);
      InsertSorted(s[0], SortByChange(s[1..]));
    }
  }

  lemma {:induction false} SortDistinct(s: seq<Mover>)
    requires DistinctSymbols(s)
    ensures DistinctSymbols(SortByChange(s))
  {
    if s != [] {
      var tail := SortByChange(s[1..]);
      forall i, j | 0 <= i < j < |s[1..]| ensures s[1..][i].symbol != s[1..][j].symbol {
        assert s[1..][i] == s[i + 1] && s[1..][j] == s[j + 1];
      }
      SortDistinct(s[1..]);
      forall x | x in tail ensures x.symbol != s[0].symbol {
        assert x in multiset(s[1..]);
        var h :| 0 <= h < |s[1..]| && s[1..][h] == x;
        assert s[1 + h] == x;
      }
      InsertDistinct(s[0], tail);
    }
  }

  /**
   * The answer of topKMovers for the qualifying candidates `q`: the best
   * min(k, |q|) of them in descending order of change.
   */
  ghost predicate IsTopK(out: seq<Mover>, q: map<string, real>, k: int) {
    SortedByChange(out) && Retains(out, q, k)
  }

  /** Two arrangements of the same entries have the same length and the same symbols. */
  lemma Rearranged(a: seq<Mover>, b: seq<Mover>)
    requires multiset(a) == multiset(b)
    ensures |a| == |b|
    ensures SymbolsIn(a) == SymbolsIn(b)
    ensures forall i :: 0 <= i < |b| ==> b[i] in a
  {
    assert |a| == |multiset(a)|;
    assert forall x :: x in a <==> x in multiset(a);
    assert forall x :: x in b <==> x in multiset(b);
    forall i | 0 <= i < |b| ensures b[i] in a {
      assert b[i] in multiset(b);
    }
  }

  /** Sorting the heap's entries keeps them the best of the candidates and orders them. */
  lemma SortRetains(heap: seq<Mover>, seen: map<string, real>, k: int)
    requires Retains(heap, seen, k)
    ensures IsTopK(SortByChange(heap), seen, k)
  {
    var out := SortByChange(heap);
    SortSorted(heap);
    SortDistinct(heap);
    Rearranged(heap, out);
    forall i | 0 <= i < |out| ensures out[i].symbol in seen && out[i].change == seen[out[i].symbol] {
      var h :| 0 <= h < |heap| && heap[h] == out[i];
    }
    forall s, i | s in seen && s !in SymbolsIn(out) && 0 <= i < |out| ensures seen[s] <= out[i].change {
      var h :| 0 <= h < |heap| && heap[h] == out[i];
    }
  }
}
