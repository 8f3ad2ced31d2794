/**
 * The layout of one simulation results file and the nested results table the
 * loader of examples/cavitationonset/plot_results.py builds from such files,
 * stated as functions. The imperative loader in results_table.dfy is proved
 * against these definitions.
 *
 * A file holds `count` bubbles. Line 0 is a header whose space-separated
 * fields 0, 5 and 7 are the bubble count, the ambient pressure and the
 * inter-bubble distance; line 1 lists the initial radius of bubble i in field
 * i + 1; line 2 is ignored; every later line is a data row.
 */
module ResultsFormat {
  import opened Wrappers
  import opened Tokens

  /** The interaction models: none, incompressible, quasi-acoustic. */
  datatype Kind = NI | IC | QA

  /** The results directories in the order the script visits them. */
  const Kinds: seq<Kind> := [NI, IC, QA]

  // Series s of a bubble is position s + 1 of the script's per-bubble list
  // (position 0 holds the initial radius).
  const SeriesTime: nat := 0
  const SeriesRadius: nat := 1
  const SeriesPressure: nat := 2
  const SeriesA: nat := 3
  const SeriesDp: nat := 4
  const SeriesU: nat := 5

  /** How many series a bubble record of the given interaction model holds. */
  function SeriesCount(kind: Kind): nat
  {
    if kind == IC || kind == QA then 6 else 3
  }

  /** One bubble's record: its initial radius and its time series. */
  datatype Bubble = Bubble(r0: real, series: seq<seq<real>>)

  /** Interaction model -> ambient pressure -> distance -> bubble records. */
  type Table = map<Kind, map<real, map<real, seq<Bubble>>>>

  /** The exception that stops the script: a missing directory, an IndexError or a ValueError. */
  datatype LoadError =
    | MissingDirectory(kind: Kind)
    | MissingLine(line: nat)
    | MissingColumn(line: nat, column: nat)
    | NotAnInteger(line: nat, column: nat)
    | NotANumber(line: nat, column: nat)

  datatype Header = Header(count: int, pressure: real, distance: real)

  /** range(count) is empty for a negative count, so such a file describes no bubble. */
  function BubbleCount(h: Header): nat
  {
    if h.count < 0 then 0 else h.count
  }

  /** The data-row column that feeds series s of bubble p in a file of n bubbles. */
  function Column(n: nat, p: nat, s: nat): nat
  {
    if s == SeriesTime then 0
    else if s == SeriesRadius then 1 + p
    else if s == SeriesPressure then 1 + n + p
    else if s == SeriesA then 1 + 2 * n + p
    else if s == SeriesDp then 1 + 3 * n + p
    else 1 + 4 * n + p
  }

  /** Apart from the shared time column, no two (bubble, series) pairs read the same column. */
  lemma ColumnsDistinct(kind: Kind, n: nat, p: nat, s: nat, q: nat, u: nat)
    requires p < n && q < n
    requires 1 <= s < SeriesCount(kind) && 1 <= u < SeriesCount(kind)
    ensures 1 <= Column(n, p, s) <= (SeriesCount(kind) - 1) * n
    ensures Column(n, p, s) == Column(n, q, u) <==> p == q && s == u
  {
  }

  // ---------------------------------------------------------------------
  // Which conversion fails first

  /** The exception raised when column col of the given line is read with float(). */
  function CellError(row: Line, line: nat, col: nat): LoadError
  {
    if col < |row| then NotANumber(line, col) else MissingColumn(line, col)
  }

  predicate ColumnsOk(row: Line, cols: seq<nat>)
  {
    forall j :: 0 <= j < |cols| ==> CellOk(row, cols[j])
  }

  /** Position in cols of the first column that row lacks or float() rejects; |cols| if none. */
  function FirstBadIndex(row: Line, cols: seq<nat>): (k: nat)
    ensures k <= |cols|
    ensures forall j :: 0 <= j < k ==> CellOk(row, cols[j])
    ensures k < |cols| ==> !CellOk(row, cols[k])
  {
    if cols == [] || !CellOk(row, cols[0]) then 0 else 1 + FirstBadIndex(row, cols[1..])
  }

  /** The error reading cols of row in order raises first, if any. */
  function RowError(row: Line, line: nat, cols: seq<nat>): (r: Option<LoadError>)
    ensures r.None? <==> ColumnsOk(row, cols)
    ensures r.Some? ==> exists j :: (
      && 0 <= j < |cols| && ColumnsOk(row, cols[..j]) && !CellOk(row, cols[j])
      && r.value == CellError(row, line, cols[j]))
  {
    var k := FirstBadIndex(row, cols);
    if k == |cols| then None
    else
      assert ColumnsOk(row, cols[..k]);
      Some(CellError(row, line, cols[k]))
  }

  /** Reading line 0: the count with int(), then the pressure and the distance with float(). */
  function ParseHeader(file: File): (r: Result<Header, LoadError>)
    ensures r.Success? <==>
      && |file| > 0 && |file[0]| > 0 && file[0][0].IntText?
      && CellOk(file[0], 5) && CellOk(file[0], 7)
    ensures r.Success? ==> r.value.count == file[0][0].i
    ensures r.Success? ==> ToReal(file[0][5]) == Some(r.value.pressure)
    ensures r.Success? ==> ToReal(file[0][7]) == Some(r.value.distance)
    ensures |file| == 0 ==> r == Failure(MissingLine(0))
  {
    if |file| == 0 then Failure(MissingLine(0))
    else
      var first := file[0];
      if |first| == 0 then Failure(MissingColumn(0, 0))
      else if ToInt(first[0]).None? then Failure(NotAnInteger(0, 0))
      else if !CellOk(first, 5) then Failure(CellError(first, 0, 5))
      else if !CellOk(first, 7) then Failure(CellError(first, 0, 7))
      else Success(Header(ToInt(first[0]).value, Cell(first, 5), Cell(first, 7)))
  }

  /** The fields of line 1 read for the initial radii, in reading order. */
  function InitialRadiusColumns(n: nat): seq<nat>
  {
    seq(n, i => i + 1)
  }

  /** The columns read for bubbles p.. of a data row, in reading order. */
  function BubbleColumns(kind: Kind, n: nat, p: nat): seq<nat>
    decreases n - p
  {
    if p >= n then []
    else seq(SeriesCount(kind) - 1, (k: int) requires 0 <= k => Column(n, p, k + 1)) + BubbleColumns(kind, n, p + 1)
  }

  /** The columns read from one data row, in reading order: the time, then bubble by bubble. */
  function RowColumns(kind: Kind, n: nat): seq<nat>
  {
    [0] + BubbleColumns(kind, n, 0)
  }

  /** Every column the script reads from a data row is there and numeric. */
  predicate DataRowOk(kind: Kind, n: nat, row: Line)
  {
    && CellOk(row, 0)
    && forall p, s :: 0 <= p < n && 0 <= s < SeriesCount(kind) ==> CellOk(row, Column(n, p, s))
  }

  lemma {:induction false} BubbleColumnListed(kind: Kind, n: nat, q: nat, p: nat, s: nat)
    requires q <= p < n && 1 <= s < SeriesCount(kind)
    ensures Column(n, p, s) in BubbleColumns(kind, n, q)
    decreases p - q
  {
    var head := seq(SeriesCount(kind) - 1, (k: int) requires 0 <= k => Column(n, q, k + 1));
    assert BubbleColumns(kind, n, q) == head + BubbleColumns(kind, n, q + 1);
    if q == p {
      assert head[s - 1] == Column(n, p, s);
    } else {
      BubbleColumnListed(kind, n, q + 1, p, s);
    }
  }

  lemma {:induction false} BubbleColumnIsColumn(kind: Kind, n: nat, q: nat, j: nat)
    requires j < |BubbleColumns(kind, n, q)|
    ensures exists p, s :: q <= p < n && 1 <= s < SeriesCount(kind) && BubbleColumns(kind, n, q)[j] == Column(n, p, s)
    decreases n - q
  {
    var head := seq(SeriesCount(kind) - 1, (k: int) requires 0 <= k => Column(n, q, k + 1));
    assert BubbleColumns(kind, n, q) == head + BubbleColumns(kind, n, q + 1);
    if j < |head| {
      assert BubbleColumns(kind, n, q)[j] == Column(n, q, j + 1);
    } else {
      BubbleColumnIsColumn(kind, n, q + 1, j - |head|);
    }
  }

  /** The columns read from a data row are exactly the time column and the routed bubble columns. */
  lemma RowColumnsOkIffDataRowOk(kind: Kind, n: nat, row: Line)
    ensures ColumnsOk(row, RowColumns(kind, n)) <==> DataRowOk(kind, n, row)
  {
    var cols := RowColumns(kind, n);
    if ColumnsOk(row, cols) {
      assert cols[0] == 0;
      forall p, s | 0 <= p < n && 0 <= s < SeriesCount(kind)
        ensures CellOk(row, Column(n, p, s))
      {
        if s != SeriesTime {
          BubbleColumnListed(kind, n, 0, p, s);
          var j :| 0 <= j < |BubbleColumns(kind, n, 0)| && BubbleColumns(kind, n, 0)[j] == Column(n, p, s);
          assert cols[j + 1] == Column(n, p, s);
        }
      }
    }
    if DataRowOk(kind, n, row) {
      forall j | 0 <= j < |cols|
        ensures CellOk(row, cols[j])
      {
        if j > 0 {
          BubbleColumnIsColumn(kind, n, 0, j - 1);
        }
      }
    }
  }

  /** The first error raised while reading the data rows, whose first line number is `line`. */
  function DataError(kind: Kind, n: nat, rows: seq<Line>, line: nat): (r: Option<LoadError>)
    ensures r.None? <==> forall j :: 0 <= j < |rows| ==> ColumnsOk(rows[j], RowColumns(kind, n))
    decreases |rows|
  {
    if rows == [] then None
    else match RowError(rows[0], line, RowColumns(kind, n))
      case Some(e) => Some(e)
      case None => DataError(kind, n, rows[1..], line + 1)
  }

  /** Row k is the first that raises, and DataError reports its error, at line `line + k`. */
  predicate FirstFailingRow(kind: Kind, n: nat, rows: seq<Line>, line: nat, k: int)
  {
    && 0 <= k < |rows|
    && (forall j :: 0 <= j < k ==> ColumnsOk(rows[j], RowColumns(kind, n)))
    && DataError(kind, n, rows, line) == RowError(rows[k], line + k, RowColumns(kind, n))
  }

  /**
   * The error DataError reports is the one the first failing row raises:
   * every earlier row reads without an exception, and row k is line `line + k`.
   */
  lemma {:induction false} DataErrorIsFirst(kind: Kind, n: nat, rows: seq<Line>, line: nat)
    requires DataError(kind, n, rows, line).Some?
    ensures exists k :: FirstFailingRow(kind, n, rows, line, k)
    decreases |rows|
  {
    var cols := RowColumns(kind, n);
    if RowError(rows[0], line, cols).Some? {
      assert FirstFailingRow(kind, n, rows, line, 0);
    } else {
      var tail := rows[1..];
      assert DataError(kind, n, rows, line) == DataError(kind, n, tail, line + 1);
      DataErrorIsFirst(kind, n, tail, line + 1);
      var k :| FirstFailingRow(kind, n, tail, line + 1, k);
      assert tail[k] == rows[k + 1];
      forall j | 0 <= j < k + 1 ensures ColumnsOk(rows[j], cols) {
        if j > 0 {
          assert tail[j - 1] == rows[j];
        }
      }
      assert line + 1 + k == line + (k + 1);
      assert FirstFailingRow(kind, n, rows, line, k + 1);
    }
  }

  /** Lines 3 onward; lines[3:] is empty for a shorter file. */
  function DataRows(file: File): (rows: seq<Line>)
    ensures |rows| == if |file| <= 3 then 0 else |file| - 3
    ensures forall k :: 0 <= k < |rows| ==> rows[k] == file[k + 3]
  {
    if |file| <= 3 then [] else file[3..]
  }

  /**
   * The header of a file the script reads to the end without an exception, or
   * the exception it stops with first: header, then line 1, then data rows.
   */
  function CheckFile(kind: Kind, file: File): (r: Result<Header, LoadError>)
    ensures r.Success? ==> |file| >= 2 && ParseHeader(file) == Success(r.value)
  {
    match ParseHeader(file)
    case Failure(e) => Failure(e)
    case Success(h) =>
      if |file| < 2 then Failure(MissingLine(1))
      else match RowError(file[1], 1, InitialRadiusColumns(BubbleCount(h)))
        case Some(e) => Failure(e)
        case None =>
          match DataError(kind, BubbleCount(h), DataRows(file), 3)
          case Some(e) => Failure(e)
          case None => Success(h)
  }

  /** Every conversion the loader performs on the file succeeds. */
  predicate WellFormed(kind: Kind, file: File, h: Header)
  {
    && ParseHeader(file) == Success(h)
    && |file| >= 2
    && (forall i :: 1 <= i <= BubbleCount(h) ==> CellOk(file[1], i))
    && (forall j :: 3 <= j < |file| ==> DataRowOk(kind, BubbleCount(h), file[j]))
  }

  lemma CheckFileIffWellFormed(kind: Kind, file: File, h: Header)
    ensures CheckFile(kind, file) == Success(h) <==> WellFormed(kind, file, h)
  {
    if ParseHeader(file) == Success(h) && |file| >= 2 {
      var n := BubbleCount(h);
      var cols := InitialRadiusColumns(n);
      assert ColumnsOk(file[1], cols) <==> forall i :: 1 <= i <= n ==> CellOk(file[1], i) by {
        if forall i :: 1 <= i <= n ==> CellOk(file[1], i) {
          forall j | 0 <= j < |cols| ensures CellOk(file[1], cols[j]) {
            assert cols[j] == j + 1;
          }
        }
        if ColumnsOk(file[1], cols) {
          forall i | 1 <= i <= n ensures CellOk(file[1], i) {
            assert cols[i - 1] == i;
          }
        }
      }
      var rows := DataRows(file);
      forall j | 0 <= j < |rows|
        ensures ColumnsOk(rows[j], RowColumns(kind, n)) <==> DataRowOk(kind, n, rows[j])
      {
        RowColumnsOkIffDataRowOk(kind, n, rows[j]);
      }
      assert (forall j :: 0 <= j < |rows| ==> DataRowOk(kind, n, rows[j]))
         <==> (forall j :: 3 <= j < |file| ==> DataRowOk(kind, n, file[j])) by {
        if forall j :: 0 <= j < |rows| ==> DataRowOk(kind, n, rows[j]) {
          forall j | 3 <= j < |file| ensures DataRowOk(kind, n, file[j]) {
            assert rows[j - 3] == file[j];
          }
        }
      }
    }
  }

  // ---------------------------------------------------------------------
  // Records and samples

  /** A fresh record: the initial radius and three empty series, six for IC and QA. */
  function EmptyRecord(kind: Kind, r0: real): (b: Bubble)
    ensures b.r0 == r0 && |b.series| == SeriesCount(kind)
    ensures forall s :: 0 <= s < |b.series| ==> b.series[s] == []
  {
    var b := Bubble(r0, [[], [], []]);
    if kind == IC || kind == QA then b.(series := b.series + [[], [], []]) else b
  }

  /** The n records a file appends, in bubble order; bubble i takes its radius from field i + 1 of line 1. */
  function NewRecords(kind: Kind, n: nat, line1: Line): (r: seq<Bubble>)
    ensures |r| == n
    ensures forall i :: 0 <= i < n ==> r[i] == EmptyRecord(kind, Cell(line1, i + 1))
  {
    if n == 0 then [] else NewRecords(kind, n - 1, line1) + [EmptyRecord(kind, Cell(line1, n))]
  }

  /** Record b, at position p, after one data row: each of its kind's series gains the value of its column. */
  function AddSample(b: Bubble, kind: Kind, n: nat, p: nat, row: Line): Bubble
  {
    Bubble(b.r0, seq(|b.series|, s requires 0 <= s < |b.series| =>
      if s < SeriesCount(kind) then b.series[s] + [Cell(row, Column(n, p, s))] else b.series[s]))
  }

  /** One data row applied to the list: positions 0 .. n - 1 gain samples, later positions are untouched. */
  function AppendRow(recs: seq<Bubble>, kind: Kind, n: nat, row: Line): seq<Bubble>
  {
    seq(|recs|, p requires 0 <= p < |recs| => if p < n then AddSample(recs[p], kind, n, p, row) else recs[p])
  }

  /** The data rows applied one after another, in file order. */
  function AppendRows(recs: seq<Bubble>, kind: Kind, n: nat, rows: seq<Line>): (r: seq<Bubble>)
    ensures |r| == |recs|
    ensures forall p :: 0 <= p < |r| ==> r[p].r0 == recs[p].r0 && |r[p].series| == |recs[p].series|
    decreases |rows|
  {
    if rows == [] then recs
    else AppendRow(AppendRows(recs, kind, n, rows[..|rows| - 1]), kind, n, rows[|rows| - 1])
  }

  /** The values of column col, one per row, in row order. */
  function Samples(rows: seq<Line>, col: nat): (r: seq<real>)
    ensures |r| == |rows|
    ensures forall k :: 0 <= k < |rows| ==> r[k] == Cell(rows[k], col)
  {
    if rows == [] then [] else Samples(rows[..|rows| - 1], col) + [Cell(rows[|rows| - 1], col)]
  }

  /**
   * After the data rows, series s of record p < n is its old contents followed by
   * column Column(n, p, s) of every row in order; every record at position n or
   * later is exactly as it was.
   */
  lemma {:induction false} AppendRowsSeries(recs: seq<Bubble>, kind: Kind, n: nat, rows: seq<Line>)
    ensures forall p :: n <= p < |recs| ==> AppendRows(recs, kind, n, rows)[p] == recs[p]
    ensures forall p, s :: 0 <= p < n && p < |recs| && 0 <= s < |recs[p].series| ==>
      AppendRows(recs, kind, n, rows)[p].series[s] ==
        if s < SeriesCount(kind) then recs[p].series[s] + Samples(rows, Column(n, p, s)) else recs[p].series[s]
    decreases |rows|
  {
    if rows != [] {
      var init := rows[..|rows| - 1];
      var last := rows[|rows| - 1];
      AppendRowsSeries(recs, kind, n, init);
      var mid := AppendRows(recs, kind, n, init);
      assert AppendRows(recs, kind, n, rows) == AppendRow(mid, kind, n, last);
      forall p, s | 0 <= p < n && p < |recs| && 0 <= s < |recs[p].series| && s < SeriesCount(kind)
        ensures AppendRows(recs, kind, n, rows)[p].series[s] == recs[p].series[s] + Samples(rows, Column(n, p, s))
      {
        var col := Column(n, p, s);
        assert Samples(rows, col) == Samples(init, col) + [Cell(last, col)];
        assert AppendRow(mid, kind, n, last)[p].series[s] == mid[p].series[s] + [Cell(last, col)];
      }
    }
  }

  // ---------------------------------------------------------------------
  // The table

  /** Get-or-create: k maps to its old value if present, to `empty` otherwise; other keys keep theirs. */
  function GetOrCreate<K, V>(m: map<K, V>, k: K, empty: V): (r: map<K, V>)
    ensures r.Keys == m.Keys + {k}
    ensures forall k' :: k' in m ==> r[k'] == m[k']
    ensures k !in m ==> r[k] == empty
  {
    if k in m then m else m[k := empty]
  }

  /** The records already stored under the file's keys, or none. */
  function Existing(t: Table, kind: Kind, h: Header): seq<Bubble>
  {
    if kind in t && h.pressure in t[kind] && h.distance in t[kind][h.pressure]
    then t[kind][h.pressure][h.distance] else []
  }

  /**
   * The get-or-create of the pressure and distance entries (the list under
   * them starts empty), with recs stored as that list.
   */
  function Store(t: Table, kind: Kind, pressure: real, distance: real, recs: seq<Bubble>): Table
    requires kind in t
  {
    var byPressure := GetOrCreate(t[kind], pressure, map[]);
    var byDistance := GetOrCreate(byPressure[pressure], distance, []);
    t[kind := byPressure[pressure := byDistance[distance := recs]]]
  }

  /** Storing a list of correctly shaped records keeps the record-width invariant. */
  lemma StoreKeepsShape(t: Table, kind: Kind, pressure: real, distance: real, recs: seq<Bubble>)
    requires kind in t && WellShaped(t) && RecordsShaped(kind, recs)
    ensures WellShaped(Store(t, kind, pressure, distance, recs))
  {
    var t' := Store(t, kind, pressure, distance, recs);
    forall k, pr, d | k in t' && pr in t'[k] && d in t'[k][pr]
      ensures RecordsShaped(k, t'[k][pr][d])
    {
      if k == kind && pr == pressure && d == distance {
      } else if k == kind && pr == pressure {
        assert t'[k][pr][d] == t[k][pr][d];
      } else if k == kind {
        assert t'[k][pr] == t[k][pr];
      } else {
        assert t'[k] == t[k];
      }
    }
  }

  /** The list under the file's keys once the file is read: old records, new records, then the samples. */
  function LoadedRecords(t: Table, kind: Kind, file: File, h: Header): seq<Bubble>
    requires |file| >= 2
  {
    var n := BubbleCount(h);
    AppendRows(Existing(t, kind, h) + NewRecords(kind, n, file[1]), kind, n, DataRows(file))
  }

  /**
   * The table after the script has read one file of the given interaction
   * model, or the exception it raises first. Only tables whose records have
   * their model's width are accepted: on any other the script would raise
   * where it appends to a missing series.
   */
  function LoadFileInto(t: Table, kind: Kind, file: File): (r: Result<Table, LoadError>)
    requires kind in t && WellShaped(t)
    ensures r.Success? <==> CheckFile(kind, file).Success?
    ensures r.Failure? ==> r.error == CheckFile(kind, file).error
    ensures r.Success? ==> r.value.Keys == t.Keys && WellShaped(r.value)
  {
    match CheckFile(kind, file)
    case Failure(e) => Failure(e)
    case Success(h) =>
      var records := LoadedRecords(t, kind, file, h);
      assert RecordsShaped(kind, Existing(t, kind, h));
      LoadFileRecords(t, kind, file, h);
      StoreKeepsShape(t, kind, h.pressure, h.distance, records);
      Success(Store(t, kind, h.pressure, h.distance, records))
  }

  /** Loading a file creates the pressure and distance entries it needs and touches no other key. */
  lemma LoadFileTouchesOneKey(t: Table, kind: Kind, file: File, h: Header)
    requires kind in t && WellShaped(t) && CheckFile(kind, file) == Success(h)
    ensures var t' := LoadFileInto(t, kind, file).value;
      && t'.Keys == t.Keys
      && (forall k :: k in t && k != kind ==> t'[k] == t[k])
      && t'[kind].Keys == t[kind].Keys + {h.pressure}
      && (forall pr :: pr in t[kind] && pr != h.pressure ==> t'[kind][pr] == t[kind][pr])
      && t'[kind][h.pressure].Keys ==
           (if h.pressure in t[kind] then t[kind][h.pressure].Keys else {}) + {h.distance}
      && (forall d :: h.pressure in t[kind] && d in t[kind][h.pressure] && d != h.distance ==>
            t'[kind][h.pressure][d] == t[kind][h.pressure][d])
  {
  }

  /** Loading a file stores, under its pressure and distance, the list LoadedRecords describes. */
  lemma LoadFileStores(t: Table, kind: Kind, file: File, h: Header)
    requires kind in t && WellShaped(t) && CheckFile(kind, file) == Success(h)
    ensures LoadFileInto(t, kind, file).value[kind][h.pressure][h.distance] == LoadedRecords(t, kind, file, h)
  {
  }

  /**
   * The records under the file's keys after loading it: the m records already
   * there, then one new record per bubble, each with its kind's number of
   * series. Series s of the record at position p < n gains, in line order,
   * column Column(n, p, s) of every data line; every record at position n or
   * later, old or new, is left as it was.
   */
  lemma LoadFileRecords(t: Table, kind: Kind, file: File, h: Header)
    requires |file| >= 2
    requires RecordsShaped(kind, Existing(t, kind, h))
    ensures var recs := LoadedRecords(t, kind, file, h);
      var before := Existing(t, kind, h);
      var n := BubbleCount(h);
      && |recs| == |before| + n
      && (forall p :: 0 <= p < |before| ==> recs[p].r0 == before[p].r0)
      && (forall p :: |before| <= p < |recs| ==> recs[p].r0 == Cell(file[1], p - |before| + 1))
      && RecordsShaped(kind, recs)
      && (forall p, s :: 0 <= p < n && 0 <= s < SeriesCount(kind) ==>
            recs[p].series[s] == (before + NewRecords(kind, n, file[1]))[p].series[s] + Samples(DataRows(file), Column(n, p, s)))
      && (forall p :: n <= p < |before| ==> recs[p] == before[p])
      && (forall p :: |before| <= p < |recs| && n <= p ==> recs[p] == EmptyRecord(kind, Cell(file[1], p - |before| + 1)))
  {
    var n := BubbleCount(h);
    var before := Existing(t, kind, h);
    var added := NewRecords(kind, n, file[1]);
    var all := before + added;
    AppendRowsSeries(all, kind, n, DataRows(file));
    var recs := LoadedRecords(t, kind, file, h);
    assert recs == AppendRows(all, kind, n, DataRows(file));
    forall p | 0 <= p < |recs| ensures |recs[p].series| == SeriesCount(kind) {
      assert |recs[p].series| == |all[p].series|;
      if p >= |before| {
        assert all[p] == added[p - |before|];
      }
    }
    forall p | |before| <= p < |recs| ensures recs[p].r0 == Cell(file[1], p - |before| + 1) {
      assert all[p] == added[p - |before|];
    }
    forall p | |before| <= p < |recs| && n <= p
      ensures recs[p] == EmptyRecord(kind, Cell(file[1], p - |before| + 1))
    {
      assert all[p] == added[p - |before|];
    }
  }

  /**
   * For keys no earlier file used, the file yields exactly n records; bubble p
   * starts from field p + 1 of line 1, and element k of its series s is column
   * Column(n, p, s) of line k + 3. All series have length |file| - 3.
   */
  lemma LoadFileFreshKey(t: Table, kind: Kind, file: File, h: Header)
    requires kind in t && WellShaped(t) && CheckFile(kind, file) == Success(h)
    requires h.pressure !in t[kind] || h.distance !in t[kind][h.pressure]
    ensures var recs := LoadFileInto(t, kind, file).value[kind][h.pressure][h.distance];
      var n := BubbleCount(h);
      && |recs| == n
      && (forall p :: 0 <= p < n ==> recs[p].r0 == Cell(file[1], p + 1))
      && (forall p :: 0 <= p < n ==> |recs[p].series| == SeriesCount(kind))
      && (forall p, s :: 0 <= p < n && 0 <= s < SeriesCount(kind) ==>
            |recs[p].series[s]| == |DataRows(file)|)
      && (forall p, s, k :: 0 <= p < n && 0 <= s < SeriesCount(kind) && 0 <= k < |DataRows(file)| ==>
            recs[p].series[s][k] == Cell(file[k + 3], Column(n, p, s)))
  {
    assert Existing(t, kind, h) == [];
    LoadFileStores(t, kind, file, h);
    FreshRecords(t, kind, file, h);
  }

  lemma FreshRecords(t: Table, kind: Kind, file: File, h: Header)
    requires |file| >= 2 && Existing(t, kind, h) == []
    ensures var recs := LoadedRecords(t, kind, file, h);
      var n := BubbleCount(h);
      && |recs| == n
      && (forall p :: 0 <= p < n ==> recs[p].r0 == Cell(file[1], p + 1))
      && (forall p :: 0 <= p < n ==> |recs[p].series| == SeriesCount(kind))
      && (forall p, s :: 0 <= p < n && 0 <= s < SeriesCount(kind) ==>
            recs[p].series[s] == Samples(DataRows(file), Column(n, p, s)))
  {
    var n := BubbleCount(h);
    LoadFileRecords(t, kind, file, h);
    var recs := LoadedRecords(t, kind, file, h);
    var added := NewRecords(kind, n, file[1]);
    assert [] + added == added;
    forall p, s | 0 <= p < n && 0 <= s < SeriesCount(kind)
      ensures recs[p].series[s] == Samples(DataRows(file), Column(n, p, s))
    {
      assert added[p].series[s] == [];
    }
  }

  /**
   * When the keys already hold m >= n records, the n records a file appends at
   * positions m .. m + n - 1 keep empty series: its samples go to the records
   * at positions 0 .. n - 1, which an earlier file created.
   */
  lemma LoadFileReusedKey(t: Table, kind: Kind, file: File, h: Header)
    requires kind in t && WellShaped(t) && CheckFile(kind, file) == Success(h)
    requires |Existing(t, kind, h)| >= BubbleCount(h)
    ensures var recs := LoadFileInto(t, kind, file).value[kind][h.pressure][h.distance];
      var before := Existing(t, kind, h);
      var n := BubbleCount(h);
      && |recs| == |before| + n
      && (forall p, s :: |before| <= p < |recs| && 0 <= s < SeriesCount(kind) ==> recs[p].series[s] == [])
      && (forall p, s :: 0 <= p < n && 0 <= s < SeriesCount(kind) ==>
            recs[p].series[s] == before[p].series[s] + Samples(DataRows(file), Column(n, p, s)))
  {
    var before := Existing(t, kind, h);
    var n := BubbleCount(h);
    assert RecordsShaped(kind, before);
    LoadFileStores(t, kind, file, h);
    LoadFileRecords(t, kind, file, h);
    var all := before + NewRecords(kind, n, file[1]);
    forall p | 0 <= p < n ensures all[p] == before[p] { }
  }

  // ---------------------------------------------------------------------
  // Record width per interaction model

  predicate RecordsShaped(kind: Kind, recs: seq<Bubble>)
  {
    forall p :: 0 <= p < |recs| ==> |recs[p].series| == SeriesCount(kind)
  }

  /** Every record under an interaction model holds that model's number of series. */
  predicate WellShaped(t: Table)
  {
    forall kind, pr, d :: kind in t && pr in t[kind] && d in t[kind][pr] ==> RecordsShaped(kind, t[kind][pr][d])
  }

  // ---------------------------------------------------------------------
  // All files

  /** The files of one results directory read in listing order, stopping at the first exception. */
  function LoadFiles(t: Table, kind: Kind, files: seq<File>): (r: Result<Table, LoadError>)
    requires kind in t && WellShaped(t)
    ensures r.Success? ==> r.value.Keys == t.Keys && WellShaped(r.value)
    decreases |files|
  {
    if files == [] then Success(t)
    else match LoadFiles(t, kind, files[..|files| - 1])
      case Failure(e) => Failure(e)
      case Success(t') => LoadFileInto(t', kind, files[|files| - 1])
  }

  /**
   * The directories of the given interaction models read in order: each one's
   * entry is created if missing, then its files are read; a model with no
   * directory in the listing raises.
   */
  function LoadKinds(t: Table, kinds: seq<Kind>, listing: map<Kind, seq<File>>): (r: Result<Table, LoadError>)
    requires WellShaped(t)
    ensures r.Success? ==> WellShaped(r.value)
    ensures r.Success? ==> forall k :: k in r.value <==> k in t || k in kinds
    decreases |kinds|
  {
    if kinds == [] then Success(t)
    else match LoadKinds(t, kinds[..|kinds| - 1], listing)
      case Failure(e) => Failure(e)
      case Success(t') =>
        var kind := kinds[|kinds| - 1];
        var withKind := GetOrCreate(t', kind, map[]);
        assert WellShaped(withKind);
        if kind !in listing then Failure(MissingDirectory(kind))
        else LoadFiles(withKind, kind, listing[kind])
  }

  /**
   * Reading all three directories into an empty table, when no exception is
   * raised, gives a table keyed by exactly NI, IC and QA whose records each
   * hold three (NI) or six (IC, QA) series.
   */
  lemma LoadAllFromEmpty(listing: map<Kind, seq<File>>)
    requires LoadKinds(map[], Kinds, listing).Success?
    ensures LoadKinds(map[], Kinds, listing).value.Keys == {NI, IC, QA}
    ensures WellShaped(LoadKinds(map[], Kinds, listing).value)
  {
  }

  /** Once a prefix of the files raises, reading all of them raises the same exception. */
  lemma {:induction false} LoadFilesStopsAtFailure(t: Table, kind: Kind, files: seq<File>, f: nat)
    requires kind in t && WellShaped(t) && f <= |files| && LoadFiles(t, kind, files[..f]).Failure?
    ensures LoadFiles(t, kind, files) == LoadFiles(t, kind, files[..f])
    decreases |files| - f
  {
    if f == |files| {
      assert files[..f] == files;
    } else {
      assert files[..f + 1][..f] == files[..f];
      LoadFilesStopsAtFailure(t, kind, files, f + 1);
    }
  }

  /** Once a prefix of the directories raises, reading all of them raises the same exception. */
  lemma {:induction false} LoadKindsStopsAtFailure(t: Table, kinds: seq<Kind>, listing: map<Kind, seq<File>>, k: nat)
    requires WellShaped(t) && k <= |kinds| && LoadKinds(t, kinds[..k], listing).Failure?
    ensures LoadKinds(t, kinds, listing) == LoadKinds(t, kinds[..k], listing)
    decreases |kinds| - k
  {
    if k == |kinds| {
      assert kinds[..k] == kinds;
    } else {
      assert kinds[..k + 1][..k] == kinds[..k];
      LoadKindsStopsAtFailure(t, kinds, listing, k + 1);
    }
  }
}
