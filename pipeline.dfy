/**
 * The batch pipeline: `process_row`, `process_csv_chunk`, `write_batch` and
 * the header check and chunking loop of the CSV mode of `main`.  The CSV
 * reader is a sequence of rows and the CSV writer an object that collects
 * the rows written to it.
 */
module Pipeline {
  import opened Wrappers
  import opened Legend
  import opened Resolver
  import opened Builtins

  /** Number of data rows buffered before a chunk is processed. */
  const BATCH_SIZE: nat := 20

  /** The third field of a result row: a level, or the literal "Null". */
  datatype Reading = Dbm(level: real) | NullToken

  /** A resolved row: the two stripped coordinate fields and the reading. */
  datatype ResultRow = ResultRow(lat: string, lon: string, reading: Reading)

  /** A cell handed to the CSV writer. */
  datatype Cell = Text(text: string) | Int(n: int)

  /** The header row of the output file. */
  const HeaderRow: seq<Cell> := [Text("Latitude"), Text("Longitude"), Text("RSRP")]

  /** The row written for a row that produced no result. */
  const NullRow: seq<Cell> := [Text("Null"), Text("Null"), Text("Null")]

  /** `[coord.strip() for coord in fields if coord.strip()]`. */
  function CoordinateFields(fields: seq<string>): (r: seq<string>)
    ensures |r| <= |fields|
    ensures forall i :: 0 <= i < |r| ==> r[i] != ""
  {
    if fields == [] then []
    else
      var f := Strip(fields[0]);
      (if f != "" then [f] else []) + CoordinateFields(fields[1..])
  }

  /** The first two fields of a row (`row[:2]`). */
  function FirstTwo(row: seq<string>): seq<string>
  {
    if |row| < 2 then row else row[..2]
  }

  /** `process_row`: the two stripped coordinate fields and the level the
      resolver finds for them (always without interpolation), or `None` when
      the row does not hold two non-empty fields, the text does not parse,
      or there is no coverage. */
  function ProcessRow(row: seq<string>, raster: Raster, locate: Locator): Option<ResultRow>
    requires raster.Valid()
  {
    var coordinates := CoordinateFields(FirstTwo(row));
    if |coordinates| != 2 then None
    else
      match CoverageLevel(coordinates[0] + "," + coordinates[1], raster, locate, None)
      case Ok(Some(level)) => Some(ResultRow(coordinates[0], coordinates[1], Dbm(level)))
      case _ => None
  }

  /** The results `process_csv_chunk` returns for `rows`: one per row, in order. */
  function ProcessRows(rows: seq<seq<string>>, raster: Raster, locate: Locator): seq<Option<ResultRow>>
    requires raster.Valid()
  {
    seq(|rows|, i requires 0 <= i < |rows| => ProcessRow(rows[i], raster, locate))
  }

  lemma ProcessRowsSnoc(rows: seq<seq<string>>, row: seq<string>, raster: Raster, locate: Locator)
    requires raster.Valid()
    ensures ProcessRows(rows + [row], raster, locate) == ProcessRows(rows, raster, locate) + [ProcessRow(row, raster, locate)]
  {
    assert forall i :: 0 <= i < |rows| ==> (rows + [row])[i] == rows[i];
  }

  /** The cells `write_batch` writes for one result. */
  function FormatRow(result: Option<ResultRow>): seq<Cell>
  {
    match result
    case None => NullRow
    case Some(ResultRow(lat, lon, NullToken)) => [Text(lat), Text(lon), Text("Null")]
    case Some(ResultRow(lat, lon, Dbm(v))) => [Text(lat), Text(lon), Int(TruncateTowardZero(v))]
  }

  /** The rows `write_batch` writes for `results`, in order. */
  function FormatBatch(results: seq<Option<ResultRow>>): seq<seq<Cell>>
  {
    seq(|results|, i requires 0 <= i < |results| => FormatRow(results[i]))
  }

  /** The header check: the first two header fields, lower-cased, are
      "latitude" and "longitude". */
  predicate HeaderOk(header: seq<string>)
  {
    |header| >= 2 && Lower(header[0]) == "latitude" && Lower(header[1]) == "longitude"
  }

  /** The coordinate list of `process_row` has two entries exactly when the
      row has two fields that are not blank, and then it is those fields stripped. */
  lemma CoordinatePair(row: seq<string>)
    ensures |CoordinateFields(FirstTwo(row))| == 2 <==> |row| >= 2 && Strip(row[0]) != "" && Strip(row[1]) != ""
    ensures |CoordinateFields(FirstTwo(row))| == 2 ==> CoordinateFields(FirstTwo(row)) == [Strip(row[0]), Strip(row[1])]
  {
    if |row| >= 2 {
      var two := FirstTwo(row);
      assert two == [row[0], row[1]];
      assert two[1..] == [row[1]];
      assert two[1..][1..] == [];
    } else if |row| == 1 {
      assert row[1..] == [];
    }
  }

  /** `process_row` yields a result exactly when the row holds two non-blank
      fields whose joined text lands on a classified pixel. */
  lemma ProcessRowOutcome(row: seq<string>, raster: Raster, locate: Locator)
    requires raster.Valid()
    ensures ProcessRow(row, raster, locate).Some? <==>
              && |row| >= 2 && Strip(row[0]) != "" && Strip(row[1]) != ""
              && exists k :: ClassifiedAs(Strip(row[0]) + "," + Strip(row[1]), raster, locate, k)
  {
    CoordinatePair(row);
    if |row| >= 2 && Strip(row[0]) != "" && Strip(row[1]) != "" {
      UninterpolatedOutcome(Strip(row[0]) + "," + Strip(row[1]), raster, locate);
    }
  }

  /** The result for a row whose pixel is classified as legend entry `k`:
      the two stripped fields and that entry's level. */
  lemma ClassifiedRow(row: seq<string>, raster: Raster, locate: Locator, k: int)
    requires raster.Valid() && |row| >= 2 && Strip(row[0]) != "" && Strip(row[1]) != ""
    requires ClassifiedAs(Strip(row[0]) + "," + Strip(row[1]), raster, locate, k)
    ensures ProcessRow(row, raster, locate) == Some(ResultRow(Strip(row[0]), Strip(row[1]), Dbm(RgbToDbm[k].dbm as real)))
  {
    CoordinatePair(row);
    UninterpolatedOutcome(Strip(row[0]) + "," + Strip(row[1]), raster, locate);
  }

  /** What `write_batch` writes for the result of one row: the three "Null"
      cells when there is no result, otherwise the stripped coordinates and a
      legend level, which `int()` leaves unchanged. */
  lemma RowOutput(row: seq<string>, raster: Raster, locate: Locator)
    requires raster.Valid()
    ensures ProcessRow(row, raster, locate).None? ==> FormatRow(ProcessRow(row, raster, locate)) == NullRow
    ensures ProcessRow(row, raster, locate).Some? ==>
              |row| >= 2 &&
              exists k :: 0 <= k < |RgbToDbm| &&
                FormatRow(ProcessRow(row, raster, locate)) == [Text(Strip(row[0])), Text(Strip(row[1])), Int(RgbToDbm[k].dbm)]
  {
    ProcessRowOutcome(row, raster, locate);
    if ProcessRow(row, raster, locate).Some? {
      var k :| ClassifiedAs(Strip(row[0]) + "," + Strip(row[1]), raster, locate, k);
      ClassifiedRow(row, raster, locate, k);
      TruncateWhole(RgbToDbm[k].dbm);
    }
  }

  /** The header check accepts exactly the headers whose first two fields
      spell "latitude" and "longitude" in any mix of ASCII case. */
  lemma HeaderCheck(header: seq<string>)
    ensures HeaderOk(header) <==>
              |header| >= 2 && SpellsIgnoringCase(header[0], "latitude") && SpellsIgnoringCase(header[1], "longitude")
  {
    if |header| >= 2 {
      LowerMatchesIgnoringCase(header[0], "latitude");
      LowerMatchesIgnoringCase(header[1], "longitude");
    }
  }

  /** Two rows through `process_csv_chunk` and `write_batch`: coordinates on
      a pixel of the -80 colour give their text and -80; a row whose second
      field is blank gives the three "Null" cells. */
  lemma TwoRowExample(raster: Raster, locate: Locator)
    requires raster.Valid() && raster.InBounds(PixelIndex(0, 0))
    requires raster.At(PixelIndex(0, 0)) == Color(207, 99, 103)
    requires locate("53.27,-6.20") == Some(PixelIndex(0, 0))
    ensures FormatBatch(ProcessRows([["53.27", "-6.20"], ["53.27", " "]], raster, locate))
         == [[Text("53.27"), Text("-6.20"), Int(-80)], NullRow]
  {
    var good := ["53.27", "-6.20"];
    var blank := ["53.27", " "];
    StripUnpadded(good[0]);
    StripUnpadded(good[1]);
    assert Strip(good[0]) + "," + Strip(good[1]) == "53.27,-6.20";
    LegendWellFormed();
    assert ClassifiedAs("53.27,-6.20", raster, locate, 0);
    ClassifiedRow(good, raster, locate, 0);
    assert Strip(blank[1]) == "";
    ProcessRowOutcome(blank, raster, locate);
    TruncateWhole(-80);
    assert FormatRow(ProcessRow(good, raster, locate)) == [Text("53.27"), Text("-6.20"), Int(-80)];
    assert FormatRow(ProcessRow(blank, raster, locate)) == NullRow;
  }

  /** The progress counter of the progress bar. */
  class ProgressBar {
    const total: nat
    var n: nat

    constructor (total: nat)
      ensures this.total == total && n == 0
    {
      this.total := total;
      n := 0;
    }

    method Update(k: nat)
      modifies this
      ensures n == old(n) + k
    {
      n := n + k;
    }
  }

  /** The CSV writer: the rows written so far. */
  class CsvSink {
    var rows: seq<seq<Cell>>

    constructor ()
      ensures rows == []
    {
      rows := [];
    }

    method WriteRow(row: seq<Cell>)
      modifies this
      ensures rows == old(rows) + [row]
    {
      rows := rows + [row];
    }
  }

  /** `process_csv_chunk`: one result per row, in order, and one progress
      step per row whatever its outcome. */
  method ProcessCsvChunk(chunk: seq<seq<string>>, raster: Raster, locate: Locator, bar: ProgressBar)
    returns (results: seq<Option<ResultRow>>)
    requires raster.Valid()
    modifies bar
    ensures results == ProcessRows(chunk, raster, locate)
    ensures bar.n == old(bar.n) + |chunk|
  {
    results := [];
    for i := 0 to |chunk|
      invariant results == ProcessRows(chunk[..i], raster, locate)
      invariant bar.n == old(bar.n) + i
    {
      // Both branches of the source append the result (None included) and
      // advance the bar.  The exception handler does the same: it appends
      // None and advances the bar, so a row that raises (only the diagnostic
      // print outside `process_row`'s try block can) ends up as a None result,
      // which is what `ProcessRow` gives for such a row.
      var result := ProcessRow(chunk[i], raster, locate);
      ProcessRowsSnoc(chunk[..i], chunk[i], raster, locate);
      assert chunk[..i + 1] == chunk[..i] + [chunk[i]];
      results := results + [result];
      bar.Update(1);
    }
    assert chunk[..|chunk|] == chunk;
  }

  /** `write_batch`: writes the rows for `results`, in order. */
  method WriteBatch(results: seq<Option<ResultRow>>, sink: CsvSink)
    modifies sink
    ensures sink.rows == old(sink.rows) + FormatBatch(results)
  {
    for i := 0 to |results|
      invariant sink.rows == old(sink.rows) + FormatBatch(results[..i])
    {
      var row := results[i];
      if row.None? {
        sink.WriteRow(NullRow);
      } else if row.value.reading.NullToken? {
        sink.WriteRow([Text(row.value.lat), Text(row.value.lon), Text("Null")]);
      } else {
        sink.WriteRow([Text(row.value.lat), Text(row.value.lon), Int(TruncateTowardZero(row.value.reading.level))]);
      }
      assert results[..i + 1] == results[..i] + [results[i]];
    }
    assert results[..|results|] == results;
  }

  /** One step of the chunk loop: `process_csv_chunk` on `chunk`, then
      `write_batch` on its results. If the sink holds the output of the rows
      `done` after `base`, it then holds the output of `upTo`, which is
      `done` followed by `chunk`. */
  method ProcessAndWrite(chunk: seq<seq<string>>, raster: Raster, locate: Locator,
                         bar: ProgressBar, sink: CsvSink,
                         ghost base: seq<seq<Cell>>, ghost done: seq<seq<string>>,
                         ghost upTo: seq<seq<string>>)
    requires raster.Valid() && upTo == done + chunk
    requires sink.rows == base + FormatBatch(ProcessRows(done, raster, locate))
    modifies bar, sink
    ensures sink.rows == base + FormatBatch(ProcessRows(upTo, raster, locate))
    ensures bar.n == old(bar.n) + |chunk|
  {
    var results := ProcessCsvChunk(chunk, raster, locate, bar);
    WriteBatch(results, sink);
    OutputOfConcat(done, chunk, raster, locate);
    AppendAssoc(base, FormatBatch(ProcessRows(done, raster, locate)),
                FormatBatch(ProcessRows(chunk, raster, locate)));
  }

  /** How a CSV run ends: output written, an empty input file (the header
      read raises), or a header that fails the check. */
  datatype RunStatus = Completed | EmptyInput | BadHeader

  /** The rows of a sequence of chunks, one after the other. */
  ghost function Concat(chunks: seq<seq<seq<string>>>): seq<seq<string>>
  {
    if chunks == [] then [] else Concat(chunks[..|chunks| - 1]) + chunks[|chunks| - 1]
  }

  /** Formatting the results of two runs of rows one after the other is
      formatting the results of their concatenation. */
  lemma {:induction false} OutputOfConcat(a: seq<seq<string>>, b: seq<seq<string>>, raster: Raster, locate: Locator)
    requires raster.Valid()
    ensures FormatBatch(ProcessRows(a + b, raster, locate))
         == FormatBatch(ProcessRows(a, raster, locate)) + FormatBatch(ProcessRows(b, raster, locate))
  {
    var lhs := FormatBatch(ProcessRows(a + b, raster, locate));
    var rhs := FormatBatch(ProcessRows(a, raster, locate)) + FormatBatch(ProcessRows(b, raster, locate));
    assert |lhs| == |rhs|;
    forall i | 0 <= i < |lhs| ensures lhs[i] == rhs[i] {
      if i < |a| {
        assert (a + b)[i] == a[i];
      } else {
        assert (a + b)[i] == b[i - |a|];
      }
    }
  }

  lemma ConcatSnoc(chunks: seq<seq<seq<string>>>, chunk: seq<seq<string>>)
    ensures Concat(chunks + [chunk]) == Concat(chunks) + chunk
  {
    assert (chunks + [chunk])[..|chunks|] == chunks;
  }

  lemma AppendAssoc<T>(a: seq<T>, b: seq<T>, c: seq<T>)
    ensures (a + b) + c == a + (b + c)
  {
  }

  lemma SliceExtend<T>(s: seq<T>, a: nat, b: nat)
    requires a <= b < |s|
    ensures s[a..b] + [s[b]] == s[a..b + 1]
  {
  }

  lemma PrefixSplit<T>(s: seq<T>, a: nat, b: nat)
    requires a <= b <= |s|
    ensures s[..a] + s[a..b] == s[..b]
  {
  }

  /** The chunking loop of `main`: the data rows are buffered into chunks
      of BATCH_SIZE, each chunk is processed and written as soon as it is
      full, and the leftover chunk is flushed at the end.  `batches` records
      the chunks in the order they were processed. */
  method ProcessDataRows(data: seq<seq<string>>, raster: Raster, locate: Locator,
                         bar: ProgressBar, sink: CsvSink)
    returns (ghost batches: seq<seq<seq<string>>>)
    requires raster.Valid()
    modifies bar, sink
    ensures sink.rows == old(sink.rows) + FormatBatch(ProcessRows(data, raster, locate))
    ensures bar.n == old(bar.n) + |data|
    ensures Concat(batches) == data
    ensures forall k :: 0 <= k < |batches| ==> 0 < |batches[k]| <= BATCH_SIZE
    ensures forall k :: 0 <= k < |batches| - 1 ==> |batches[k]| == BATCH_SIZE
  {
    batches := [];
    var chunk: seq<seq<string>> := [];
    var i := 0;
    ghost var start := 0;
    while i < |data|
      invariant 0 <= start <= i <= |data| && start + |chunk| == i
      invariant |chunk| < BATCH_SIZE
      invariant chunk == data[start..i]
      invariant sink.rows == old(sink.rows) + FormatBatch(ProcessRows(data[..start], raster, locate))
      invariant bar.n == old(bar.n) + start
      invariant Concat(batches) == data[..start]
      invariant forall k :: 0 <= k < |batches| ==> |batches[k]| == BATCH_SIZE
    {
      SliceExtend(data, start, i);
      chunk := chunk + [data[i]];
      i := i + 1;
      if |chunk| >= BATCH_SIZE {
        PrefixSplit(data, start, i);
        ProcessAndWrite(chunk, raster, locate, bar, sink, old(sink.rows), data[..start], data[..i]);
        ConcatSnoc(batches, chunk);
        batches := batches + [chunk];
        chunk := [];
        start := i;
      }
    }
    if chunk != [] {
      PrefixSplit(data, start, i);
      ProcessAndWrite(chunk, raster, locate, bar, sink, old(sink.rows), data[..start], data[..i]);
      ConcatSnoc(batches, chunk);
      batches := batches + [chunk];
      start := i;
    }
    assert data[..start] == data;
  }

  /** The CSV mode of `main` from the header on: an empty file or a header
      that fails the check stops the run before the output file and the
      progress bar exist; otherwise the header row is written and every data
      row is processed and written, in order. */
  method RunBatch(csvRows: seq<seq<string>>, raster: Raster, locate: Locator)
    returns (status: RunStatus, sink: CsvSink?, bar: ProgressBar?, ghost batches: seq<seq<seq<string>>>)
    requires raster.Valid()
    ensures status == EmptyInput <==> csvRows == []
    ensures status == Completed <==> csvRows != [] && HeaderOk(csvRows[0])
    ensures status != Completed ==> sink == null && bar == null
    ensures status == Completed ==>
              && sink != null && bar != null && fresh(sink) && fresh(bar)
              && sink.rows == [HeaderRow] + FormatBatch(ProcessRows(csvRows[1..], raster, locate))
              && bar.total == |csvRows| - 1 && bar.n == |csvRows| - 1
    ensures status == Completed ==>
              && Concat(batches) == csvRows[1..]
              && (forall k :: 0 <= k < |batches| ==> 0 < |batches[k]| <= BATCH_SIZE)
              && (forall k :: 0 <= k < |batches| - 1 ==> |batches[k]| == BATCH_SIZE)
  {
    batches := [];
    if csvRows == [] {
      return EmptyInput, null, null, batches;
    }
    if !HeaderOk(csvRows[0]) {
      return BadHeader, null, null, batches;
    }
    var data := csvRows[1..];
    bar := new ProgressBar(|data|);
    sink := new CsvSink();
    sink.WriteRow(HeaderRow);
    batches := ProcessDataRows(data, raster, locate, bar, sink);
    return Completed, sink, bar, batches;
  }
}
