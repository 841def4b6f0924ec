/**
 * The lines of the CSV file read by loadCsvMultiThreaded, each already split at
 * commas and parsed: the loader skips the first line as a header, skips a line with
 * fewer than four fields, and stops at the first line whose numeric fields do not
 * parse (Long.parseLong / Double.parseDouble throw). Parsed ticks are handed to bulk
 * ingestion in batches of BatchSize.
 */
module CsvRecords {
  import opened StockTicks

  datatype CsvLine =
    | Short               // fewer than four comma-separated fields
    | Malformed           // a timestamp, price or volume field that does not parse
    | Parsed(tick: Tick)

  /** The batch size at which the loader flushes to bulk ingestion. */
  const BatchSize: nat := 5000

  /** The lines after the header line; an empty file has none. */
  function Body(lines: seq<CsvLine>): (r: seq<CsvLine>)
    ensures lines != [] ==> lines == [lines[0]] + r
    ensures lines == [] ==> r == []
  {
    if lines == [] then [] else lines[1..]
  }

  /** The ticks of the parsed lines, in file order. */
  function ParsedTicks(lines: seq<CsvLine>): (r: seq<Tick>)
    ensures |r| <= |lines|
  {
    if lines == [] then []
    else
      var init, last := lines[..|lines| - 1], lines[|lines| - 1];
      assert lines == init + [last];
      ParsedTicks(init) + (if last.Parsed? then [last.tick] else [])
  }

  /** The parsed ticks are exactly the ticks of the parsed lines. */
  lemma {:induction false} ParsedTicksSpec(lines: seq<CsvLine>)
    ensures forall t :: t in ParsedTicks(lines) <==> Parsed(t) in lines
  {
    if lines != [] {
      var init, last := lines[..|lines| - 1], lines[|lines| - 1];
      assert lines == init + [last];
      ParsedTicksSpec(init);
    }
  }

  lemma ParsedTicksSnoc(lines: seq<CsvLine>, line: CsvLine)
    ensures ParsedTicks(lines + [line]) == ParsedTicks(lines) + (if line.Parsed? then [line.tick] else [])
  {
    assert (lines + [line])[..|lines|] == lines;
  }

  predicate Clean(lines: seq<CsvLine>) {
    forall i :: 0 <= i < |lines| ==> !lines[i].Malformed?
  }

  /** The length of the longest prefix without a malformed line. */
  function CleanPrefix(lines: seq<CsvLine>): (n: nat)
    ensures n <= |lines|
    ensures forall j :: 0 <= j < n ==> !lines[j].Malformed?
    ensures n < |lines| ==> lines[n].Malformed?
  {
    if lines == [] then 0
    else if lines[0].Malformed? then 0
    else 1 + CleanPrefix(lines[1..])
  }

  /**
   * The ticks the loader ingests: all parsed ticks when no line is malformed; otherwise
   * the parsed ticks before the first malformed line, less the partial batch that the
   * exception discards.
   */
  function Ingested(lines: seq<CsvLine>): (r: seq<Tick>)
    ensures var body := Body(lines); var parsed := ParsedTicks(body[..CleanPrefix(body)]);
      && r <= parsed
      && (Clean(body) ==> r == ParsedTicks(body))
      && (!Clean(body) ==> |r| % BatchSize == 0 && |parsed| - |r| < BatchSize)
  {
    var body := Body(lines);
    var n := CleanPrefix(body);
    var parsed := ParsedTicks(body[..n]);
    if Clean(body) then
      assert n == |body| && body[..n] == body;
      parsed
    else
      WholeBatches(|parsed|);
      parsed[..|parsed| / BatchSize * BatchSize]
  }

  /** Rounding a count down to whole batches leaves less than one batch. */
  lemma WholeBatches(m: nat)
    ensures var flushed := m / BatchSize * BatchSize;
      flushed <= m && flushed % BatchSize == 0 && m - flushed < BatchSize
  {
  }

  /**
   * The loader's state after the first i body lines: none of them malformed, the
   * ticks parsed so far split into whole flushed batches and a partial batch.
   */
  ghost predicate Reading(body: seq<CsvLine>, i: nat, flushed: seq<Tick>, batch: seq<Tick>) {
    && i <= |body|
    && i <= CleanPrefix(body)
    && flushed + batch == ParsedTicks(body[..i])
    && |batch| < BatchSize
    && |flushed| % BatchSize == 0
  }

  /**
   * Reading a line that is not malformed: a short line is skipped, a parsed one joins
   * the batch, and a batch that reaches BatchSize is flushed whole.
   */
  lemma ReadsLine(body: seq<CsvLine>, i: nat, flushed: seq<Tick>, batch: seq<Tick>)
    returns (flushed': seq<Tick>, batch': seq<Tick>)
    requires Reading(body, i, flushed, batch) && i < |body| && !body[i].Malformed?
    ensures Reading(body, i + 1, flushed', batch')
    ensures body[i].Short? ==> flushed' == flushed && batch' == batch
    ensures body[i].Parsed? && |batch + [body[i].tick]| < BatchSize ==>
      flushed' == flushed && batch' == batch + [body[i].tick]
    ensures body[i].Parsed? && |batch + [body[i].tick]| >= BatchSize ==>
      flushed' == flushed + (batch + [body[i].tick]) && batch' == []
  {
    assert body[..i + 1] == body[..i] + [body[i]];
    ParsedTicksSnoc(body[..i], body[i]);
    flushed', batch' := flushed, batch;
    if body[i].Parsed? {
      var full := batch + [body[i].tick];
      assert flushed + full == (flushed + batch) + [body[i].tick];
      if |full| >= BatchSize {
        flushed', batch' := flushed + full, [];
        assert flushed' + batch' == flushed + full;
      } else {
        batch' := full;
      }
    }
  }

  /** Whole batches plus a partial one round down to the whole batches. */
  lemma RoundDown(whole: nat, partial: nat)
    requires whole % BatchSize == 0 && partial < BatchSize
    ensures (whole + partial) / BatchSize * BatchSize == whole
  {
  }

  /**
   * A malformed body line stops the load with exactly the whole batches flushed before
   * it ingested.
   */
  lemma StopsAtMalformed(lines: seq<CsvLine>, i: nat, flushed: seq<Tick>, batch: seq<Tick>)
    requires Reading(Body(lines), i, flushed, batch)
    requires i < |Body(lines)| && Body(lines)[i].Malformed?
    ensures !Clean(Body(lines))
    ensures Ingested(lines) == flushed
  {
    RoundDown(|flushed|, |batch|);
    assert (flushed + batch)[..|flushed|] == flushed;
  }

  /** A load that reaches the end of a clean file ingests every parsed tick. */
  lemma LoadsWholeFile(lines: seq<CsvLine>, flushed: seq<Tick>, batch: seq<Tick>)
    requires Reading(Body(lines), |Body(lines)|, flushed, batch)
    ensures Clean(Body(lines))
    ensures Ingested(lines) == flushed + batch
  {
    var body := Body(lines);
    assert body[..|body|] == body;
  }
}
