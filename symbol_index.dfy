/**
 * The symbol index of TrendForgeEngine, `index`: symbol -> time series, and the
 * point update that ingestTick performs on it
 * (`computeIfAbsent(symbol, new map).put(ts, tick)`).
 */
module SymbolIndex {
  import opened Results
  import opened StockTicks
  import opened TimeSeries

  type Index = map<string, Series>

  /**
   * The shape every index reachable through ingestion has: a symbol's series exists
   * only once a tick was put into it, and every tick is stored under its own
   * symbol and timestamp.
   */
  predicate WellFormed(index: Index) {
    forall s :: s in index ==>
      && index[s] != map[]
      && KeyedByTs(index[s])
      && forall k :: k in index[s] ==> index[s][k].symbol == s
  }

  /** The tick stored at (symbol, ts), if any. */
  function Lookup(index: Index, symbol: string, ts: int): Option<Tick> {
    if symbol in index && ts in index[symbol] then Some(index[symbol][ts]) else None
  }

  /** The series of `symbol`, or the empty series that computeIfAbsent would create. */
  function SeriesOf(index: Index, symbol: string): Series {
    if symbol in index then index[symbol] else map[]
  }

  /** ingestTick as a function of the index: a point update at (t.symbol, t.ts). */
  function Put(index: Index, t: Tick): (r: Index)
    ensures r.Keys == index.Keys + {t.symbol}
    ensures Lookup(r, t.symbol, t.ts) == Some(t)
    ensures forall s, k :: (s != t.symbol || k != t.ts) ==> Lookup(r, s, k) == Lookup(index, s, k)
    ensures WellFormed(index) ==> WellFormed(r)
  {
    index[t.symbol := SeriesOf(index, t.symbol)[t.ts := t]]
  }

  /** Two indexes are equal when they have the same symbols and the same lookups. */
  lemma Extensionality(a: Index, b: Index)
    requires a.Keys == b.Keys
    requires forall s, k :: Lookup(a, s, k) == Lookup(b, s, k)
    ensures a == b
  {
    forall s | s in a ensures a[s] == b[s] {
      forall k ensures k in a[s] <==> k in b[s] {
        assert Lookup(a, s, k) == Lookup(b, s, k);
      }
      forall k | k in a[s] ensures a[s][k] == b[s][k] {
        assert Lookup(a, s, k) == Lookup(b, s, k);
      }
    }
  }

  /** A second tick at the same (symbol, ts) overwrites the first. */
  lemma PutOverwrites(index: Index, first: Tick, second: Tick)
    requires first.symbol == second.symbol && first.ts == second.ts
    ensures Put(Put(index, first), second) == Put(index, second)
  {
    Extensionality(Put(Put(index, first), second), Put(index, second));
  }

  /** Ingesting the same tick twice is the same as ingesting it once. */
  lemma PutIdempotent(index: Index, t: Tick)
    ensures Put(Put(index, t), t) == Put(index, t)
  {
    PutOverwrites(index, t, t);
  }

  /** Point updates at different (symbol, ts) keys commute. */
  lemma PutCommutes(index: Index, a: Tick, b: Tick)
    requires a.symbol != b.symbol || a.ts != b.ts
    ensures Put(Put(index, a), b) == Put(Put(index, b), a)
  {
    Extensionality(Put(Put(index, a), b), Put(Put(index, b), a));
  }

  /** ingestBulk run sequentially: one Put per tick, first to last. */
  function PutAll(index: Index, ticks: seq<Tick>): (r: Index)
    ensures WellFormed(index) ==> WellFormed(r)
  {
    if ticks == [] then index
    else Put(PutAll(index, ticks[..|ticks| - 1]), ticks[|ticks| - 1])
  }

  /** Ingesting a + b is ingesting a, then b. */
  lemma {:induction false} PutAllAppend(index: Index, a: seq<Tick>, b: seq<Tick>)
    ensures PutAll(index, a + b) == PutAll(PutAll(index, a), b)
  {
    if b == [] {
      assert a + b == a;
    } else {
      var init := b[..|b| - 1];
      assert (a + b)[..|a + b| - 1] == a + init;
      PutAllAppend(index, a, init);
    }
  }

  /** Position i of the list holds the key (symbol, ts), and no later position does. */
  predicate LastWithKey(ticks: seq<Tick>, i: int, symbol: string, ts: int) {
    && 0 <= i < |ticks|
    && ticks[i].symbol == symbol && ticks[i].ts == ts
    && forall j :: i < j < |ticks| ==> ticks[j].symbol != symbol || ticks[j].ts != ts
  }

  /** The last tick of the list stored at (symbol, ts), if any. */
  function LastAt(ticks: seq<Tick>, symbol: string, ts: int): (r: Option<Tick>)
    ensures r.Some? ==> r.value in ticks && r.value.symbol == symbol && r.value.ts == ts
    ensures r.None? ==> forall t :: t in ticks ==> t.symbol != symbol || t.ts != ts
    ensures r.Some? ==> exists i :: LastWithKey(ticks, i, symbol, ts) && ticks[i] == r.value
  {
    if ticks == [] then None
    else
      var t := ticks[|ticks| - 1];
      var init := ticks[..|ticks| - 1];
      assert ticks == init + [t];
      if t.symbol == symbol && t.ts == ts then Some(t)
      else
        var r := LastAt(init, symbol, ts);
        assert r.Some? ==> exists i :: LastWithKey(ticks, i, symbol, ts) && ticks[i] == r.value by {
          if r.Some? {
            var i :| LastWithKey(init, i, symbol, ts) && init[i] == r.value;
            assert ticks[i] == r.value;
            assert LastWithKey(ticks, i, symbol, ts) by {
              forall j | i < j < |ticks| ensures ticks[j].symbol != symbol || ticks[j].ts != ts {
                if j < |init| {
                  assert ticks[j] == init[j];
                }
              }
            }
          }
        }
        r
  }

  /**
   * After sequential bulk ingestion, each (symbol, ts) holds the last tick of the list
   * with that key, and keeps its earlier tick when the list has none.
   */
  lemma {:induction false} PutAllLastWins(index: Index, ticks: seq<Tick>, symbol: string, ts: int)
    ensures LastAt(ticks, symbol, ts).Some? ==> Lookup(PutAll(index, ticks), symbol, ts) == LastAt(ticks, symbol, ts)
    ensures LastAt(ticks, symbol, ts).None? ==> Lookup(PutAll(index, ticks), symbol, ts) == Lookup(index, symbol, ts)
  {
    if ticks != [] {
      PutAllLastWins(index, ticks[..|ticks| - 1], symbol, ts);
    }
  }

  /** No two different ticks of the set share a (symbol, ts) key. */
  ghost predicate KeysDetermine(ticks: set<Tick>) {
    forall a, b :: a in ticks && b in ticks && a.symbol == b.symbol && a.ts == b.ts ==> a == b
  }

  ghost function SymbolsOf(ticks: set<Tick>): set<string> {
    set t | t in ticks :: t.symbol
  }

  lemma SymbolsOfAdd(ticks: set<Tick>, t: Tick)
    ensures SymbolsOf(ticks + {t}) == SymbolsOf(ticks) + {t.symbol}
  {
    forall s | s in SymbolsOf(ticks + {t}) ensures s in SymbolsOf(ticks) + {t.symbol} {
      var u :| u in ticks + {t} && u.symbol == s;
      if u != t {
        assert u in ticks;
      }
    }
    assert t in ticks + {t};
  }

  /** The ticks of `symbol` in the set, keyed by timestamp. */
  ghost function Overlay(ticks: set<Tick>, symbol: string): Series
    requires KeysDetermine(ticks)
  {
    map t | t in ticks && t.symbol == symbol :: t.ts := t
  }

  /**
   * Reference definition of ingesting a set of ticks whose keys are distinct, in no
   * order at all: the old index overlaid with the set.
   */
  ghost function Absorb(index: Index, ticks: set<Tick>): (r: Index)
    requires KeysDetermine(ticks)
    ensures r.Keys == index.Keys + SymbolsOf(ticks)
  {
    map s | s in index.Keys + SymbolsOf(ticks) :: SeriesOf(index, s) + Overlay(ticks, s)
  }

  /** Every tick of the set is found at its own key in the overlay. */
  lemma AbsorbStores(index: Index, ticks: set<Tick>, t: Tick)
    requires KeysDetermine(ticks) && t in ticks
    ensures Lookup(Absorb(index, ticks), t.symbol, t.ts) == Some(t)
  {
    assert t.symbol in SymbolsOf(ticks);
    assert t.ts in Overlay(ticks, t.symbol);
  }

  /** Keys that no tick of the set carries keep their old entry. */
  lemma AbsorbKeeps(index: Index, ticks: set<Tick>, s: string, k: int)
    requires KeysDetermine(ticks)
    requires forall t :: t in ticks ==> t.symbol != s || t.ts != k
    ensures Lookup(Absorb(index, ticks), s, k) == Lookup(index, s, k)
  {
    if s in Absorb(index, ticks) {
      assert k !in Overlay(ticks, s);
    }
  }

  lemma PutAbsorbAt(index: Index, ticks: set<Tick>, t: Tick, s: string, k: int)
    requires KeysDetermine(ticks + {t})
    ensures Lookup(Put(Absorb(index, ticks), t), s, k) == Lookup(Absorb(index, ticks + {t}), s, k)
  {
    if s == t.symbol && k == t.ts {
      AbsorbStores(index, ticks + {t}, t);
    } else if u :| u in ticks && u.symbol == s && u.ts == k {
      AbsorbStores(index, ticks, u);
      AbsorbStores(index, ticks + {t}, u);
    } else {
      AbsorbKeeps(index, ticks, s, k);
      AbsorbKeeps(index, ticks + {t}, s, k);
    }
  }

  lemma PutAbsorbKeys(index: Index, ticks: set<Tick>, t: Tick)
    requires KeysDetermine(ticks + {t})
    ensures Put(Absorb(index, ticks), t).Keys == Absorb(index, ticks + {t}).Keys
  {
    SymbolsOfAdd(ticks, t);
  }

  lemma PutAbsorbLookups(index: Index, ticks: set<Tick>, t: Tick)
    requires KeysDetermine(ticks + {t})
    ensures forall s, k :: Lookup(Put(Absorb(index, ticks), t), s, k) == Lookup(Absorb(index, ticks + {t}), s, k)
  {
    forall s, k ensures Lookup(Put(Absorb(index, ticks), t), s, k) == Lookup(Absorb(index, ticks + {t}), s, k) {
      PutAbsorbAt(index, ticks, t, s, k);
    }
  }

  /** Putting one more tick into an overlay is the overlay of the larger set. */
  lemma PutAbsorb(index: Index, ticks: set<Tick>, t: Tick)
    requires KeysDetermine(ticks + {t})
    ensures Put(Absorb(index, ticks), t) == Absorb(index, ticks + {t})
  {
    PutAbsorbKeys(index, ticks, t);
    PutAbsorbLookups(index, ticks, t);
    Extensionality(Put(Absorb(index, ticks), t), Absorb(index, ticks + {t}));
  }

  /** Sequential bulk ingestion of ticks with distinct keys is the overlay of their set. */
  lemma {:induction false} BulkAbsorbs(index: Index, ticks: seq<Tick>)
    requires KeysDetermine(set t | t in ticks)
    ensures PutAll(index, ticks) == Absorb(index, set t | t in ticks)
  {
    if ticks == [] {
      assert (set t | t in ticks) == {};
      forall s, k ensures Lookup(index, s, k) == Lookup(Absorb(index, {}), s, k) {
        AbsorbKeeps(index, {}, s, k);
      }
      Extensionality(index, Absorb(index, {}));
    } else {
      var init, last := ticks[..|ticks| - 1], ticks[|ticks| - 1];
      assert ticks == init + [last];
      assert (set t | t in ticks) == (set t | t in init) + {last};
      BulkAbsorbs(index, init);
      PutAbsorb(index, (set t | t in init), last);
    }
  }

  /**
   * The final index of ingestBulk does not depend on the order in which the tasks
   * run, as long as no two different ticks share a (symbol, ts) key.
   */
  lemma IngestOrderIndependent(index: Index, a: seq<Tick>, b: seq<Tick>)
    requires KeysDetermine(set t | t in a)
    requires multiset(a) == multiset(b)
    ensures PutAll(index, a) == PutAll(index, b)
  {
    assert (set t | t in a) == (set t | t in b) by {
      forall t ensures t in a <==> t in b {
        assert t in a <==> t in multiset(a);
        assert t in b <==> t in multiset(b);
      }
    }
    BulkAbsorbs(index, a);
    BulkAbsorbs(index, b);
  }
}
