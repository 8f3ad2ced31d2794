/**
 * The loader loop of examples/cavitationonset/plot_results.py: the results
 * table is an object whose field the loader updates in place, directory by
 * directory and file by file. Each step is proved against the definitions in
 * ResultsFormat.
 *
 * The per-key list of bubble records is the same list object in the table and
 * in the loader's local variable; here the loader works on that list as a
 * value and stores it back under its keys once the file is read.
 */
module ResultsStore {
  import opened Wrappers
  import opened Tokens
  import opened ResultsFormat

  /**
   * The loop over the bubbles of line 1: one record per bubble, holding its
   * initial radius and empty series, appended in bubble order.
   */
  method AppendNewRecords(records: seq<Bubble>, kind: Kind, n: nat, line1: Line) returns (r: seq<Bubble>)
    requires forall i :: 1 <= i <= n ==> CellOk(line1, i)
    ensures r == records + NewRecords(kind, n, line1)
  {
    r := records;
    for i := 0 to n
      invariant r == records + NewRecords(kind, i, line1)
    {
      assert CellOk(line1, i + 1);
      var initRadius := ToReal(line1[i + 1]).value;
      var last := |r|;
      r := r + [Bubble(initRadius, [[], [], []])];
      if kind == IC || kind == QA {
        r := r[last := r[last].(series := r[last].series + [[]])];
        r := r[last := r[last].(series := r[last].series + [[]])];
        r := r[last := r[last].(series := r[last].series + [[]])];
      }
      assert r[last] == EmptyRecord(kind, Cell(line1, i + 1));
      assert r == (records + NewRecords(kind, i, line1)) + [EmptyRecord(kind, Cell(line1, i + 1))];
    }
  }

  /**
   * The loop over the data rows: row by row, in file order, each of the first
   * n records gains one sample per series from the row's columns.
   */
  method AppendDataRows(records: seq<Bubble>, kind: Kind, n: nat, rows: seq<Line>) returns (r: seq<Bubble>)
    requires n <= |records|
    requires forall p :: 0 <= p < n ==> |records[p].series| == SeriesCount(kind)
    requires forall j :: 0 <= j < |rows| ==> DataRowOk(kind, n, rows[j])
    ensures r == AppendRows(records, kind, n, rows)
  {
    r := records;
    for j := 0 to |rows|
      invariant r == AppendRows(records, kind, n, rows[..j])
    {
      r := AppendRowSamples(r, kind, n, rows[j]);
      assert rows[..j + 1][..j] == rows[..j];
    }
    assert rows[..|rows|] == rows;
  }

  /** One data row: the time is read once, then each of the first n records takes its samples. */
  method AppendRowSamples(records: seq<Bubble>, kind: Kind, n: nat, row: Line) returns (r: seq<Bubble>)
    requires n <= |records|
    requires forall p :: 0 <= p < n ==> |records[p].series| == SeriesCount(kind)
    requires DataRowOk(kind, n, row)
    ensures r == AppendRow(records, kind, n, row)
  {
    var time := ToReal(row[0]).value;
    r := records;
    for i := 0 to n
      invariant |r| == |records|
      invariant forall p :: 0 <= p < i ==> r[p] == AddSample(records[p], kind, n, p, row)
      invariant forall p :: i <= p < |r| ==> r[p] == records[p]
    {
      var b := AddBubbleSamples(r[i], kind, n, i, row, time);
      r := r[i := b];
    }
  }

  /** Bubble p's share of a data row: radius, pressure and, for IC and QA, the three extra series. */
  method AddBubbleSamples(b: Bubble, kind: Kind, n: nat, p: nat, row: Line, time: real) returns (r: Bubble)
    requires p < n && |b.series| == SeriesCount(kind)
    requires DataRowOk(kind, n, row) && time == Cell(row, 0)
    ensures r == AddSample(b, kind, n, p, row)
  {
    assert CellOk(row, Column(n, p, SeriesRadius)) && CellOk(row, Column(n, p, SeriesPressure));
    var radius := ToReal(row[1 + p]).value;
    var pressure := ToReal(row[1 + n + p]).value;
    var series := b.series;
    series := series[SeriesTime := series[SeriesTime] + [time]];
    series := series[SeriesRadius := series[SeriesRadius] + [radius]];
    series := series[SeriesPressure := series[SeriesPressure] + [pressure]];
    if kind == IC || kind == QA {
      assert CellOk(row, Column(n, p, SeriesA)) && CellOk(row, Column(n, p, SeriesDp))
        && CellOk(row, Column(n, p, SeriesU));
      var a := ToReal(row[1 + 2 * n + p]).value;
      var dp := ToReal(row[1 + 3 * n + p]).value;
      var u := ToReal(row[1 + 4 * n + p]).value;
      series := series[SeriesA := series[SeriesA] + [a]];
      series := series[SeriesDp := series[SeriesDp] + [dp]];
      series := series[SeriesU := series[SeriesU] + [u]];
    }
    r := Bubble(b.r0, series);
    var expected := AddSample(b, kind, n, p, row);
    forall s | 0 <= s < |series| ensures series[s] == expected.series[s] {
      assert CellOk(row, Column(n, p, s));
    }
  }

  /** The results table (interaction model -> ambient pressure -> distance -> records). */
  class ResultsTable {
    var entries: Table

    /** Every record holds its interaction model's number of series. */
    ghost predicate Valid()
      reads this
    {
      WellShaped(entries)
    }

    constructor ()
      ensures Valid() && entries == map[]
    {
      entries := map[];
    }

    /** Creates the interaction model's entry, empty, unless it is already there. */
    method AddKind(kind: Kind)
      requires Valid()
      modifies this
      ensures Valid()
      ensures entries == GetOrCreate(old(entries), kind, map[])
    {
      if kind !in entries {
        entries := entries[kind := map[]];
      }
    }

    /**
     * Reads one results file of the given interaction model into the table:
     * creates the pressure and distance entries if missing, appends one record
     * per bubble and appends each data row's samples. On an exception the table
     * is left as it was.
     */
    method LoadFile(kind: Kind, file: File) returns (outcome: Outcome<LoadError>)
      requires Valid() && kind in entries
      modifies this
      ensures Valid()
      ensures LoadFileInto(old(entries), kind, file).Success? ==>
        outcome == Pass && entries == LoadFileInto(old(entries), kind, file).value
      ensures LoadFileInto(old(entries), kind, file).Failure? ==>
        outcome == Fail(LoadFileInto(old(entries), kind, file).error) && entries == old(entries)
    {
      var checked := CheckFile(kind, file);
      if checked.Failure? {
        return Fail(checked.error);
      }
      var h := checked.value;
      CheckFileIffWellFormed(kind, file, h);
      var n := BubbleCount(h);
      var byPressure := entries[kind];
      if h.pressure !in byPressure {
        byPressure := byPressure[h.pressure := map[]];
      }
      var byDistance := byPressure[h.pressure];
      if h.distance !in byDistance {
        byDistance := byDistance[h.distance := []];
      }
      var records := byDistance[h.distance];
      assert records == Existing(entries, kind, h);
      assert RecordsShaped(kind, records);
      records := AppendNewRecords(records, kind, n, file[1]);
      var rows := DataRows(file);
      forall j | 0 <= j < |rows| ensures DataRowOk(kind, n, rows[j]) {
        assert rows[j] == file[j + 3];
      }
      records := AppendDataRows(records, kind, n, rows);
      assert records == LoadedRecords(entries, kind, file, h);
      LoadFileRecords(entries, kind, file, h);
      StoreKeepsShape(entries, kind, h.pressure, h.distance, records);
      assert LoadFileInto(entries, kind, file) == Success(Store(entries, kind, h.pressure, h.distance, records));
      entries := entries[kind := byPressure[h.pressure := byDistance[h.distance := records]]];
      outcome := Pass;
    }

    /**
     * Reads the files one results directory lists, in listing order; the first
     * exception stops it.
     */
    method LoadDirectory(kind: Kind, files: seq<File>) returns (outcome: Outcome<LoadError>)
      requires Valid() && kind in entries
      modifies this
      ensures Valid()
      ensures LoadFiles(old(entries), kind, files).Success? ==>
        outcome == Pass && entries == LoadFiles(old(entries), kind, files).value
      ensures LoadFiles(old(entries), kind, files).Failure? ==>
        outcome == Fail(LoadFiles(old(entries), kind, files).error)
      ensures outcome.Fail? ==> exists f :: (
        && 0 <= f < |files|
        && LoadFiles(old(entries), kind, files[..f]) == Success(entries)
        && LoadFileInto(entries, kind, files[f]) == Failure(outcome.error))
    {
      ghost var base := entries;
      for f := 0 to |files|
        invariant Valid() && kind in entries
        invariant LoadFiles(base, kind, files[..f]) == Success(entries)
      {
        assert files[..f + 1][..f] == files[..f];
        outcome := LoadFile(kind, files[f]);
        if outcome.Fail? {
          LoadFilesStopsAtFailure(base, kind, files, f + 1);
          return;
        }
      }
      assert files[..|files|] == files;
      outcome := Pass;
    }

    /**
     * The whole loader: for each interaction model in order, creates its entry
     * and reads the files its directory lists. The first exception stops it.
     */
    method LoadAll(listing: map<Kind, seq<File>>) returns (outcome: Outcome<LoadError>)
      requires Valid()
      modifies this
      ensures Valid()
      ensures LoadKinds(old(entries), Kinds, listing).Success? ==>
        outcome == Pass && entries == LoadKinds(old(entries), Kinds, listing).value
      ensures LoadKinds(old(entries), Kinds, listing).Failure? ==>
        outcome == Fail(LoadKinds(old(entries), Kinds, listing).error)
    {
      ghost var start := entries;
      for k := 0 to |Kinds|
        invariant Valid()
        invariant LoadKinds(start, Kinds[..k], listing) == Success(entries)
      {
        var kind := Kinds[k];
        assert Kinds[..k + 1][..k] == Kinds[..k];
        AddKind(kind);
        if kind !in listing {
          LoadKindsStopsAtFailure(start, Kinds, listing, k + 1);
          return Fail(MissingDirectory(kind));
        }
        outcome := LoadDirectory(kind, listing[kind]);
        if outcome.Fail? {
          LoadKindsStopsAtFailure(start, Kinds, listing, k + 1);
          return;
        }
      }
      assert Kinds[..|Kinds|] == Kinds;
      outcome := Pass;
    }
  }
}
