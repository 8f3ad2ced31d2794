# Cavitation-onset results loader, in Dafny

This project models the data-handling core of the script
`examples/cavitationonset/plot_results.py`. The script reads plain-text
simulation results for one or two bubbles under three interaction models:
NI (no interaction), IC (incompressible) and QA (quasi-acoustic). It stores
them in a nested table, keyed first by interaction model, then by ambient
pressure, then by inter-bubble distance. Each key holds a list of per-bubble
records. The model covers three pieces:

- **The loader** (`results_format.dfy`, `results_table.dfy`). A results file
  is a sequence of lines, and each line is a sequence of space-separated
  tokens. The header line gives the bubble count (field 0), the pressure key
  (field 5) and the distance key (field 7). Line 1 gives each bubble's initial
  radius in field `i + 1`. Line 2 is ignored. Every later line is a data row.
  In a data row, column 0 is the time. For bubble `i` the radius is in column
  `1 + i` and the pressure in column `1 + n + i`. For IC and QA three more
  series come from columns `1 + 2n + i`, `1 + 3n + i` and `1 + 4n + i`.
  `ResultsFormat` states all of this as functions. The table is a
  `ResultsTable` object whose `entries` field the loader methods update in
  place. Each method is proved against those functions.
- **Decimation** (`series_ops.dfy`, `Decimate`). This keeps the samples at
  indices 9, 19, 29, … so that the QA pressure series lines up with the IC
  series.
- **The first-maximum lookup** (`series_ops.dfy`, `FirstMaxIndex`,
  `TimeOfMaxRadius`). This models `R.index(max(R))` and the time read at that
  index.

Beyond the layout, the proofs make one behaviour of the loader explicit
(`LoadFileReusedKey`). Say a file's pressure and distance keys already hold
`m` records, from an earlier file with the same keys. The file still appends
its `n` new records at positions `m … m+n-1`. But its samples go to positions
`0 … n-1`, because the script indexes the list from its start. So when
`m >= n`, every record the file appends keeps empty series.

Tokens are modelled after conversion: `IntText(i)` is text that both `int()`
and `float()` accept, `RealText(r)` is numeric text that only `float()`
accepts, and `OtherText` is anything else. A missing field is an IndexError
(`MissingColumn`) and a field `float()` rejects is a ValueError (`NotANumber`).
`CheckFile` gives the first exception the script would raise, in the order the
script reads the fields.

## Model

| member | source | states |
|---|---|---|
| ResultsFormat.ColumnsDistinct | examples/cavitationonset/plot_results.py:63-73 | apart from the shared time column, the columns of bubble p's series are all in 1..(series-1)*n, and two (bubble, series) pairs read the same column only if they are the same pair |
| ResultsFormat.FirstBadIndex | examples/cavitationonset/plot_results.py:62-73 | reading columns in order, the index of the first one that is missing or not numeric: every earlier one converts, and this one does not |
| ResultsFormat.RowError | examples/cavitationonset/plot_results.py:62-73 | reading a row raises nothing exactly when every column read is present and numeric; otherwise the error is that of the first column, in reading order, that is missing or not numeric, while every earlier column converts |
| ResultsFormat.ParseHeader | examples/cavitationonset/plot_results.py:39-42 | the header succeeds exactly when line 0 exists, field 0 is integer text and fields 5 and 7 are numeric; the count comes from field 0, the pressure from field 5 and the distance from field 7; an empty file raises on line 0 |
| ResultsFormat.RowColumnsOkIffDataRowOk | examples/cavitationonset/plot_results.py:62-73 | the columns a data row is read in are exactly column 0 plus the routed columns Column(n, p, s) of every bubble p and series s |
| ResultsFormat.DataError | examples/cavitationonset/plot_results.py:61-73 | the data rows raise nothing exactly when every row has all the columns it is read for, and they are numeric |
| ResultsFormat.DataErrorIsFirst | examples/cavitationonset/plot_results.py:61-73 | when the data rows raise, the error is that of the first failing row, reported at its own line number, and every earlier row reads cleanly |
| ResultsFormat.DataRows | examples/cavitationonset/plot_results.py:61 | lines 0 to 2 are skipped: there are len(file)-3 data rows (none for a shorter file), and data row k is line k+3 |
| ResultsFormat.CheckFile | examples/cavitationonset/plot_results.py:39-73 | a file that raises nothing has at least two lines and its header is the parsed line 0 |
| ResultsFormat.CheckFileIffWellFormed | examples/cavitationonset/plot_results.py:39-73 | the script reads a file without an exception exactly when its header parses, line 1 has a numeric field i for each bubble i in 1..n, and every data row has every routed column, numeric |
| ResultsFormat.EmptyRecord | examples/cavitationonset/plot_results.py:55-59 | a new record holds the initial radius and 3 empty series for NI, 6 for IC and QA |
| ResultsFormat.NewRecords | examples/cavitationonset/plot_results.py:52-59 | a file appends exactly n records, and record i takes its initial radius from field i+1 of line 1 |
| ResultsFormat.AppendRows | examples/cavitationonset/plot_results.py:61-76 | data rows never add or remove records, and never change a record's initial radius or its number of series |
| ResultsFormat.Samples | examples/cavitationonset/plot_results.py:61-69 | the samples of one column come in row order: element k is that column of row k |
| ResultsFormat.AppendRowsSeries | examples/cavitationonset/plot_results.py:61-76 | after the data rows, each series of record p < n is its old contents followed by its routed column of every row, in order; records at position n or later are unchanged |
| ResultsFormat.StoreKeepsShape | examples/cavitationonset/plot_results.py:44-59 | storing a list whose records all have the model's series count under any pressure and distance keeps every record of the table at its model's width |
| ResultsFormat.GetOrCreate | examples/cavitationonset/plot_results.py:44-47 | get-or-create: the key is added if missing (mapped to the empty value), and every existing key keeps its value |
| ResultsFormat.LoadFileInto | examples/cavitationonset/plot_results.py:39-76 | on a table whose records have their model's width, reading a file succeeds exactly when CheckFile does and raises CheckFile's first error otherwise; it never adds or removes an interaction-model key, and keeps every record at its model's width |
| ResultsFormat.LoadFileStores | examples/cavitationonset/plot_results.py:44-76 | the list stored under the file's keys is the get-or-created list extended by the file's records and samples |
| ResultsFormat.LoadFileTouchesOneKey | examples/cavitationonset/plot_results.py:44-47 | only the file's pressure and distance entries are created or changed; every other model, pressure and distance entry is unchanged |
| ResultsFormat.LoadFileRecords | examples/cavitationonset/plot_results.py:49-76 | after a file, the list holds the m old records then n new ones with the initial radii of line 1, each with its model's series count; records p < n gain their routed samples; every other record is left as it was |
| ResultsFormat.FreshRecords | examples/cavitationonset/plot_results.py:51-76 | for new keys the list holds exactly n records, and each series of each record is exactly its routed column over the data rows |
| ResultsFormat.LoadFileFreshKey | examples/cavitationonset/plot_results.py:51-76 | for new keys there are n records; all their series have length len(file)-3; element k of series s of bubble p is column Column(n, p, s) of line k+3 |
| ResultsFormat.LoadFileReusedKey | examples/cavitationonset/plot_results.py:49-67 | when the keys already hold at least n records, the n records the file appends keep empty series, and its samples are appended to records 0..n-1 |
| ResultsFormat.LoadFiles | examples/cavitationonset/plot_results.py:33-37 | reading a directory's files never adds or removes an interaction-model key, and keeps every record at its model's width |
| ResultsFormat.LoadKinds | examples/cavitationonset/plot_results.py:26-33 | after reading the directories of the listed models, the table's keys are its old keys plus those models, and every record has its model's width |
| ResultsFormat.LoadAllFromEmpty | examples/cavitationonset/plot_results.py:20-76 | a complete load into the empty table gives exactly the keys NI, IC and QA, with every record at its model's width |
| ResultsFormat.LoadFilesStopsAtFailure | examples/cavitationonset/plot_results.py:33-37 | the first file that raises stops the directory with that exception |
| ResultsFormat.LoadKindsStopsAtFailure | examples/cavitationonset/plot_results.py:26-37 | the first directory that raises stops the loader with that exception |
| ResultsStore.AppendNewRecords | examples/cavitationonset/plot_results.py:52-59 | the loop over range(count) appends exactly the records NewRecords describes, after the existing ones |
| ResultsStore.AppendDataRows | examples/cavitationonset/plot_results.py:61-76 | the loop over lines[3:] gives the list AppendRows describes |
| ResultsStore.AppendRowSamples | examples/cavitationonset/plot_results.py:62-76 | one data row extends records 0..n-1 with their samples and leaves the rest unchanged |
| ResultsStore.AddBubbleSamples | examples/cavitationonset/plot_results.py:63-76 | bubble p's series gain the row's time, radius, pressure and (IC, QA) a, dp, u from their routed columns |
| ResultsStore.ResultsTable.constructor | examples/cavitationonset/plot_results.py:22 | the table starts empty |
| ResultsStore.ResultsTable.AddKind | examples/cavitationonset/plot_results.py:27-28 | the interaction model's entry is created empty if missing and kept otherwise; nothing else changes |
| ResultsStore.ResultsTable.LoadFile | examples/cavitationonset/plot_results.py:39-76 | the new table is LoadFileInto of the old one; an exception is reported as CheckFile's first error; the record-width invariant is kept |
| ResultsStore.ResultsTable.LoadDirectory | examples/cavitationonset/plot_results.py:33-37 | the files of one directory are read in listing order; the final table is LoadFiles of the initial one, or the first exception is reported, and the table is then LoadFiles of the files before the failing one; the record-width invariant is kept |
| ResultsStore.ResultsTable.LoadAll | examples/cavitationonset/plot_results.py:26-37 | the loader visits NI, IC, QA in order and their files in listing order; the final table is LoadKinds of the initial one, or the first exception is reported |
| SeriesOps.Decimate | examples/cavitationonset/plot_results.py:255-257 | the output has length len/10, element k is input element 10k+9, and every input index j with j mod 10 = 9 is kept at position j/10 |
| SeriesOps.Max | examples/cavitationonset/plot_results.py:267 | max of a non-empty series is one of its elements and no element exceeds it |
| SeriesOps.IndexOf | examples/cavitationonset/plot_results.py:267 | list.index gives the first position holding the value, and raises exactly when the value is absent |
| SeriesOps.FirstMaxIndex | examples/cavitationonset/plot_results.py:267-268 | s.index(max(s)) raises exactly for an empty series; otherwise it gives an index whose element is the maximum, and every earlier element is strictly smaller |
| SeriesOps.TimeOfMaxRadius | examples/cavitationonset/plot_results.py:267-268 | the time lookup succeeds exactly when the radius series is non-empty and its first maximum is within the time series (always when the time series is at least as long); the time is taken at a first-maximum index |

## Left out

- Directory walking and file reading (lines 24, 30-37) are left out. The contents of each results directory are a parameter (`listing`), and the file order is whatever that sequence gives, since `os.listdir` does not specify one. A model with no directory in the listing raises `MissingDirectory`.
- Text-to-number conversion by `int()` and `float()` is left out. Tokens arrive already classified. The text `float()` accepts for infinities and NaN has no `real` value, so those tokens are not modelled. Neither are the trailing newline `float()` strips, nor the empty field a blank line produces.
- Table keys are exact reals. Python's float-key quirks (`-0.0 == 0.0`, NaN never equal to itself) and floating-point rounding are not modelled.
- ResultsStore.ResultsTable.LoadFile: on an exception it reports the same first error as the script, but it checks the whole file before changing anything and leaves the table unchanged. The script instead stops with the table partly updated (entries created, some records or samples appended). Nothing reads the table after the script stops.
- ResultsStore.ResultsTable.LoadAll: after an exception it promises nothing about the table, since the script stops there.
- All matplotlib figure, axis, text and legend calls (lines 6-13 and 88-427, apart from the modelled loop and lookup) are left out. They are rendering through a foreign library.
- The numpy scaling by `1.0e6` and by `P0`, and the `diff_p` subtraction (lines 104-348, 259), are left out. They are floating-point array numerics.
- The unstable-radius computation with `np.polynomial.Polynomial.roots()` (lines 390-397, 414-421) is left out. It is floating-point root finding in a foreign routine.
- The hard-coded table lookups in the plotting section (for example `dic_2_bubbles["IC"][-25325][dist]`) are left out. They are wiring with no logic of their own.
