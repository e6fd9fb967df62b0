# Taiwan air-quality observation data: a Dafny model of the merge and transform stages

The repository turns the hourly air-quality files published by Taiwan's
Environmental Protection Administration into one table per year, then reshapes each
year table into a long, time-stamped form. This project models both stages and proves
what they promise.

- **Merge** (`merge_data`). Each year directory of the data directory holds raw
  files. Each file is read without its secondary header line. Column names and
  text cells are stripped of surrounding whitespace. The station column `測站` is
  left-joined against the monitoring-station table on `監測站名稱`, validated
  many-to-one. The mapping key column is dropped and the columns are put into
  canonical order: `測站, 縣市, 空管區, 日期, 測項, 00 … 23`. The files of a year are
  concatenated in glob order and written to `{data_dir}/{year}.csv`.
- **Transform** (`transform_data`, `process_all_files`). A year table's dates are
  parsed. The table is melted into one row per (row, hour column), and each hour
  label becomes an offset added to the date. The long table is pivoted back to one
  row per (station, county, region, time) with one column per quantity `測項`,
  keeping the first value of each cell. Every CSV file of a directory is
  overwritten with its transformed table.

Modules:

- `Wrappers`: `Option` and `Result`.
- `Text`: Python's `str.strip()`.
- `Frames`: tables as values.
  - `Frame(columns, rows)` has a row per data line.
  - A row maps each label to an optional cell; a missing cell is `None`, pandas' NaN.
  - A cell is text or an opaque number.
- `YearLayout`: the year-table layout that `merge_data` writes and `transform_data`
  reads (key columns, hour labels, `columns_order`), and what a run over a directory
  leaves behind (the files written, and the exception that ended it).
- `Merge`: every step of `merge_data`, the per-year loop as a method (`MergeYear`)
  and the directory loop as a method (`MergeData`).
- `Transform`: the steps of `transform_data`, and `process_all_files` as a method
  (`ProcessAllFiles`).

The three loops are proved against recursive specification functions:

- `Accumulate`/`YearTable` for the per-year concatenation;
- `MergeFrom`/`MergeRun` for the directory loop;
- `Overwrite` for the transform batch.

Lemmas then prove what those functions mean:

- a year table is the concatenation of its files' rows, one per data line, and fails
  with the first failing file's exception;
- the k-th written year file belongs to the k-th year directory;
- the run stops at the first exception.

How a run ends, as the code is written:

- An exception from any file propagates out of `merge_data`: the first failing file
  ends the run, and the year files already written stay written.
- A year directory whose files have no data lines, or that holds no files, still gets
  its year file (an empty table).
- Year files are written to `{data_dir}/{year}.csv`.
- A malformed file aborts `process_all_files`. The files before it are already
  overwritten; the later ones are untouched.

## Model

| member | source | states |
|---|---|---|
| Text.Strip | src/taiwan_air_quality/merge.py:36-39 | `strip()`: the result has no whitespace at either end, and the input is the result with a run of whitespace put back on each side; the result is empty exactly when the input is all whitespace |
| Text.StripIdempotent | src/taiwan_air_quality/merge.py:39 | stripping a stripped string changes nothing |
| YearLayout.HourLabel | src/taiwan_air_quality/merge.py:55 | `str(h).zfill(2)` is two decimal digits whose value is `h` |
| YearLayout.OutputColumns | src/taiwan_air_quality/merge.py:54-56 | `columns_order` is 29 distinct labels: the five key columns, then the hour labels 00 to 23 |
| Merge.SkipSecondLine | src/taiwan_air_quality/merge.py:33 | `skiprows=[1]` keeps the header and drops the first data line; data line `i` is raw line `i + 1` |
| Merge.StripColumnNames | src/taiwan_air_quality/merge.py:36 | the stripped labels have no outer whitespace and every cell moves under its stripped label; two labels that strip to the same name raise |
| Merge.StripCell | src/taiwan_air_quality/merge.py:39 | a text cell is stripped and anything else is left as is |
| Merge.StripCells | src/taiwan_air_quality/merge.py:39 | `applymap` strips every cell and keeps the table's shape |
| Merge.StripCellsIdempotent | src/taiwan_air_quality/merge.py:39 | cleaning the cells twice is cleaning them once |
| Merge.Clean | src/taiwan_air_quality/merge.py:33-39 | after reading and cleaning, data line `i` holds the stripped raw cell of raw line `i + 1` under the stripped label, and every cell is stripped |
| Merge.LeftJoin | src/taiwan_air_quality/merge.py:42-48 | the join succeeds exactly when both key columns exist, the right key is unique and no label collides; a missing key column raises KeyError naming it, the right key (looked up first) when both are missing, a repeated right key raises the many-to-one error, and a label collision raises the duplicate-label error; one output row per left row |
| Merge.InJoinColumns | src/taiwan_air_quality/merge.py:42-48 | a label with no join suffix is in the joined table exactly when one side only has it |
| Merge.LeftJoinLeftCells | src/taiwan_air_quality/merge.py:42-48 | every left row keeps its own cells, under `_x` where the label clashes |
| Merge.LeftJoinRightCells | src/taiwan_air_quality/merge.py:42-48 | the mapping row with the same key supplies the right-hand cells; with no such row they are missing |
| Merge.LeftJoinLeftCell | src/taiwan_air_quality/merge.py:42-48 | a left-only column keeps its label and its cell |
| Merge.LeftJoinRightCell | src/taiwan_air_quality/merge.py:42-48 | a right-only column holds the matching mapping row's cell, or is missing when no row matches |
| Merge.DropColumn | src/taiwan_air_quality/merge.py:51 | `drop` raises KeyError for an absent column; otherwise the column leaves the labels and every row, and nothing else changes |
| Merge.Project | src/taiwan_air_quality/merge.py:57 | `data[columns_order]` succeeds exactly when every requested column exists (KeyError names one that does not); the result has exactly those columns, in that order, with the same cells |
| Merge.Enrich | src/taiwan_air_quality/merge.py:33-57 | a processed file has exactly the canonical columns, and the mapping key column is gone |
| Merge.EnrichStages | src/taiwan_air_quality/merge.py:42-57 | the processed file's output cells are those of the joined table |
| Merge.EnrichSucceedsIff | src/taiwan_air_quality/merge.py:33-57 | processing a file succeeds exactly when its stripped header is unambiguous, has `測站` and not `監測站名稱`, the mapping has a unique `監測站名稱`, no label collides, and each output column comes from exactly one table |
| Merge.DuplicateMappingKeyFails | src/taiwan_air_quality/merge.py:47 | a repeated station name in the mapping makes `validate="many_to_one"` raise |
| Merge.EnrichKeepsRawCells | src/taiwan_air_quality/merge.py:33-57 | a processed file has one row per data line, and each output column read from the raw file holds the stripped raw cell |
| Merge.EnrichCellJoinsMapping | src/taiwan_air_quality/merge.py:42-57 | a column supplied by the mapping holds the cell of the mapping row whose station name equals the row's station, and is missing when there is none |
| Merge.Concat | src/taiwan_air_quality/merge.py:60 | `pd.concat(..., ignore_index=True)`: the first table's columns, then the new ones of the second; the rows of both in order, padded with missing cells |
| Merge.ConcatSameColumns | src/taiwan_air_quality/merge.py:26-60 | appending a table with the same columns to the running table, or to the empty start, just appends its rows |
| Merge.AccumulateIsConcatenation | src/taiwan_air_quality/merge.py:26-60 | the per-year fold succeeds exactly when every file does, and then holds all their rows in order |
| Merge.AccumulateFirstError | src/taiwan_air_quality/merge.py:31-60 | the fold raises the exception of the first failing file |
| Merge.YearTableIsConcatenation | src/taiwan_air_quality/merge.py:26-60 | a year table exists exactly when every file of the year is processed; it holds their rows in glob order, one per data line |
| Merge.YearTableFirstError | src/taiwan_air_quality/merge.py:31-60 | a failing year raises its first failing file's exception |
| Merge.MergeYear | src/taiwan_air_quality/merge.py:26-60 | the per-year loop computes the year table, or raises its exception |
| Merge.MergeFromAppends | src/taiwan_air_quality/merge.py:23-64 | the loop keeps the files already written and only appends |
| Merge.MergeFromWritesYears | src/taiwan_air_quality/merge.py:23-64 | the loop writes, in order, one year file per year directory until the first failing one |
| Merge.MergeFromFailure | src/taiwan_air_quality/merge.py:23-64 | the loop raises nothing exactly when every year directory gets its file; otherwise it raises the first failing year's exception |
| Merge.MergeRunWritesYears | src/taiwan_air_quality/merge.py:23-64 | the k-th written file is `{data_dir}/{year}.csv` of the k-th year directory, holding that year's table; a run without exception writes one file per year directory; one that raises stops at the first failing year with its exception |
| Merge.MergeData | src/taiwan_air_quality/merge.py:23-64 | the directory loop computes `MergeRun`, the outcome the lemmas above describe |
| Transform.Days | src/taiwan_air_quality/transform.py:21 | `to_datetime` succeeds exactly when every date parses (a missing date stays NaT); otherwise it raises at the first unparseable row; on success there is one day per row |
| Transform.Melt | src/taiwan_air_quality/transform.py:24-29 | `melt` fails exactly when a key column is absent; the long table has one row per (value column, row) |
| Transform.MeltAt | src/taiwan_air_quality/transform.py:24-29 | long row `h·n + i` holds row `i`'s key cells and its cell under the `h`-th value column, in `melt`'s column-major order |
| Transform.MeltSize | src/taiwan_air_quality/transform.py:24-29 | the long table has (value columns) × (rows) rows |
| Transform.MeltRowOrigin | src/taiwan_air_quality/transform.py:24-29 | every long row comes from exactly one (value column, row) pair |
| Transform.HourOffset | src/taiwan_air_quality/transform.py:32 | `to_timedelta(hour + ":00:00")` succeeds on a label of decimal digits, as that many hours; the model rejects every other label |
| Transform.HourOffsetOfHourLabel | src/taiwan_air_quality/transform.py:32 | the hour label of `h` parses back to `h` hours |
| Transform.Timestamp | src/taiwan_air_quality/transform.py:33 | date plus hours is missing exactly when the date is; otherwise it recovers the day and the hour |
| Transform.TimestampInjective | src/taiwan_air_quality/transform.py:33 | distinct (day, hour) pairs give distinct times |
| Transform.Stamp | src/taiwan_air_quality/transform.py:32-36 | stamping succeeds exactly when every hour label parses; each long row keeps its station, county, region, quantity and value, with its time |
| Transform.FirstValue | src/taiwan_air_quality/transform.py:41 | `aggfunc="first"` is the first non-missing value of the cell's group, missing when the group has none |
| Transform.FirstValueIsFirst | src/taiwan_air_quality/transform.py:41 | a present value with no earlier present value in its group is the one kept |
| Transform.Pivot | src/taiwan_air_quality/transform.py:37-45 | one row per distinct index key that has a present value, one column per quantity that has one (the `dropna` pruning), each cell the first value of its group |
| Transform.PivotKeysUnique | src/taiwan_air_quality/transform.py:37-45 | the pivot's index keys are distinct, with no more rows than the long table |
| Transform.PivotHasKey | src/taiwan_air_quality/transform.py:37-45 | every long row with complete index values and a present value has its index key in the pivot |
| Transform.PivotKeyFromLong | src/taiwan_air_quality/transform.py:37-45 | every pivot row comes from a long row with a present value: a key whose values are all missing has no row |
| Transform.PivotQuantities | src/taiwan_air_quality/transform.py:39 | the quantity columns are exactly the quantities of the long rows with a present value, without repeats: an all-missing quantity has no column |
| Transform.PivotCells | src/taiwan_air_quality/transform.py:37-45 | each pivot cell is missing exactly when its group has no value, and otherwise is the first value of its group |
| Transform.PivotRowOfCell | src/taiwan_air_quality/transform.py:37-45 | a present value of a complete long row gives its key's row a present cell under its quantity, the first value of that group |
| Transform.TransformTable | src/taiwan_air_quality/transform.py:18-47 | `transform_data` raises KeyError without a date column; the pivot has at most (value columns) × (rows) rows |
| Transform.TransformTableKeepsReading | src/taiwan_air_quality/transform.py:18-47 | on any table that transforms, a present value in a value column of a row with complete index values and a parseable date gives a non-empty result with a row for (station, county, region, date plus that column's hours) and a present cell for the row's quantity |
| Transform.TransformMergedTable | src/taiwan_air_quality/transform.py:18-47 | on a merged year table, `transform_data` succeeds exactly when every date parses, with at most 24 rows per input row |
| Transform.MergedStampAt | src/taiwan_air_quality/transform.py:21-33 | in a merged table, long row `h·n + i` is row `i`'s reading for hour `h` at day-of-row-`i` plus `h` hours |
| Transform.MergedPivotCell | src/taiwan_air_quality/transform.py:18-47 | a present reading of station/county/region/quantity on a day at hour `h` gives the pivot a row for that time with a present cell under that quantity, and the cell is that reading when no earlier row of the slot has one |
| Transform.OverwriteInOrder | src/taiwan_air_quality/transform.py:66-70 | the k-th overwritten file is the k-th file with its transformed table; the batch raises nothing exactly when every file transforms, and otherwise raises the first failing file's exception |
| Transform.ProcessAllFiles | src/taiwan_air_quality/transform.py:61-70 | the batch loop computes `Overwrite` of the files' results, the outcome `OverwriteInOrder` describes |

## Left out

- Reading and writing CSV files: the Big5 and UTF-8-with-BOM encodings, pandas' type inference, and `to_csv` formatting. A raw file is given as the table pandas reads, header line included. A write is recorded as a (path, table) pair.
- The directory listing (`iterdir`, `is_dir`, `glob`) is a parameter: the entries, or the files, in the order the listing gives them.
- The value `merge_data` returns, the `glob("*.csv")` of the data directory, is not modelled. It depends on files the run did not write.
- `tqdm` progress bars, `argparse`/`main`, printing, `dev.py` and the package `__init__.py`.
- `transform.py:18` (reading the file) and the `--file` single-file mode of its `main`.
- Date parsing is a parameter mapping a cell to a day number, or to nothing when `to_datetime` cannot parse it. Calendar arithmetic is not modelled. A time is day × 24 + hour.
- Measurement values are opaque. Floating point, numeric conversion of text and pandas' dtype changes are not modelled.
- Transform.HourOffset: only unsigned decimal hour labels are modelled. `to_timedelta` also accepts a leading sign and skips spaces, commas and `+`, so a label like `-1` would parse there and raises here.
- Transform.Pivot: rows and quantity columns come in order of first appearance; `pivot_table` sorts them. The cell contents are the same either way.
- Merge.StripColumnNames: pandas would keep two labels that strip to the same name. A row here is a map and cannot hold both, so the model raises instead.
- Merge.LeftJoin: a missing station name is treated as a key equal to another missing one, as pandas matches NaN with NaN.
- Merge.LeftJoin: any duplicate among the joined labels raises. pandas raises only when the renamed labels of one side repeat. Where the left side's renamed labels clash with the right side's (left `a`, `a_y` and right `a` give `a_x`, `a_y`, `a_y`), pandas keeps both columns. A row here is a map and cannot hold both.
- Merge.Enrich: its own contract gives only the shape. The cell-level meaning is in EnrichKeepsRawCells, EnrichCellJoinsMapping and EnrichSucceedsIff.
- Transform.TransformTable: its own contract is weaker than `transform_data`'s behaviour on arbitrary tables. The full meaning is proved for tables with the merge stage's columns (TransformMergedTable, MergedStampAt, MergedPivotCell), which is what the batch transforms. On any table, TransformTableKeepsReading shows that a present reading yields a non-empty result holding its key.
- Merge.Project: requires the requested labels to be distinct, as `columns_order` is. Projection onto a list with repeated labels is not modelled.
