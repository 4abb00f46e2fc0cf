# meld in Dafny

meld collects the per-job CSV result files of a distributed image-analysis
pipeline and loads them into an SQLite table or a single CSV file. Each file
is loaded as is or after aggregating replicate rows. This project models
three parts of it and proves properties of each:

- **The header codec** (`meld/colfuncs.py`), in module `Colfuncs`.
  `collapse_cols` folds each multi-level header tuple into one name, joined
  with `sep` and stripped. `inflate_cols` splits the names again and
  transposes the pieces into header levels, with `zip`'s truncation to the
  shortest split.
- **The column classifier and replicate aggregator** (`meld/utils.py`), in
  module `Utils`:
  - `get_featuredata` and `get_metadata` are the classifier. It is a
    substring or prefix test for the marker "Metadata".
  - `_check_inputs` and `_check_featuredata` are the input checks. The
    second is a loop that collects every offending column. When no column
    is left to check, numpy's `vectorize` raises `ValueError` on the empty
    dtype list, and the model fails the same way.
  - `aggregate` groups rows by the key in ascending key order. Feature
    columns are reduced by median or mean. Metadata and key columns take the
    values of the group's first row. Columns stay in their original order.
- **The `Merger`** (`meld/merge_to_db.py`), in module `MergeToDb`.
  - Naming rules: `get_file_name`, `get_table_name`, the aggregated table
    name and the `.sqlite` rule of `create_db`.
  - A class whose database handle and engine stay unset until `create_db`.
    `check_database` fails until then.
  - `to_db`, `to_db_agg` and `to_csv_agg` as loops over the selected files.
    Each file is loaded with the header-depth dispatch, which collapses
    multi-level headers and raises `HeaderError` on a flat one.

Supporting modules:
- `Errors`: the exceptions the code raises, as values.
- `Text`: the Python `str` operations used, with CPython's semantics.
  - `split` is leftmost and non-overlapping.
  - `replace(p, "")` is `"".join(split(p))`.
  - `strip` removes `isspace` characters.
- `Order`: lexicographic order, and the sorted distinct keys `groupby`
  produces.
- `Stats`: `np.median`, `np.mean` and `np.sum` over reals.

A table is a `Utils.Table`:
- column names;
- an abstract per-column "numeric dtype" tag;
- rows of cells, each a number or a string. A numeric column holds only
  numbers.

Grouping orders keys the way pandas sorts them. Numbers are ordered by
value and strings lexicographically by code point. In a column holding
both, numbers come before strings, as pandas' `safe_sort` orders a mixed
column. A key of several columns is compared column by column.

Three behaviours of the code are worth stating plainly:
- `"sum"` is rejected by `_check_inputs` (`meld/utils.py:56`), although
  the docstring of `aggregate` (`meld/utils.py:19`) lists it as an option.
  The `sum` branch of `aggregate` is therefore unreachable
  (`Utils.SumRejected`).
- `inflate_cols` does not reject names that split into different numbers
  of pieces. `zip` truncates them to the shortest split
  (`Colfuncs.RaggedTruncated`).
- `to_db` and `to_db_agg` append file by file. A failure part-way leaves
  the files before it appended (`MergeToDb.AppendedUntilFirstError`).

## Model

| member | source | states |
|---|---|---|
| Colfuncs.CollapseCols | meld/colfuncs.py:27-40 | one name per column in column order; each name is `sep.join(tuple).strip()`: the slice of the join left with only whitespace around it and none at its ends (`Text.IsStripOf`), which is the join itself whenever the join has no outer whitespace |
| Text.StripSpec | meld/colfuncs.py:40 | `strip()` returns the part of the string left once whitespace is removed from both sides |
| Text.StripOfUnique | meld/colfuncs.py:40 | at most one string meets that description, so it determines the stripped name |
| Colfuncs.CollapseExample | tests/test_colfuncs.py:18-32 | with "_", ("Image","ImageNumber") and ("Metadata","Well") collapse to "Image_ImageNumber" and "Metadata_Well" |
| Colfuncs.Pieces | meld/colfuncs.py:22 | one piece list per name, in column order, each the name's `split(sep)` |
| Colfuncs.MinLength | meld/colfuncs.py:22 | the length where `zip` stops: no piece list is shorter, and some piece list has exactly this length |
| Colfuncs.Zip | meld/colfuncs.py:22 | as many levels as the shortest piece list; level i across the columns is the i-th piece of every name |
| Colfuncs.Transpose | meld/colfuncs.py:24 | one tuple per column; tuple c at level i is level i's entry for column c |
| Colfuncs.InflateCols | meld/colfuncs.py:7-24 | fails exactly when there is no column (no level to build) or the separator is empty (`split` raises) |
| Colfuncs.InflateTruncates | meld/colfuncs.py:22-24 | each inflated tuple is its name's split cut to the common (shortest) length, and all tuples have that length |
| Colfuncs.InflateTwoLevels | tests/test_colfuncs.py:35-47 | names that each split into two pieces give one two-level tuple per column, namely their two pieces |
| Colfuncs.InflateEvenSplits | meld/colfuncs.py:22-24 | names whose splits all have the same length inflate to exactly their splits |
| Colfuncs.SplitCollapsed | meld/colfuncs.py:22-40 | each collapsed name splits back into its tuple when no level holds a separator match and the join has no outer whitespace |
| Colfuncs.RoundTrip | meld/colfuncs.py:7-40 | inflating the collapsed names of equal-depth tuples with the same separator gives the tuples back, under those conditions |
| Colfuncs.RoundTripOneChar | meld/colfuncs.py:7-40 | the round trip for a one-character separator occurring in no level name |
| Colfuncs.EmptyLevelLost | meld/colfuncs.py:22-40 | with " ", an empty last level is stripped away, so the round trip gives a one-level tuple |
| Colfuncs.InflateTwoNames | meld/colfuncs.py:22-24 | two names whose splits have unequal lengths inflate to the longer split cut to the shorter one's length, and the shorter split |
| Colfuncs.SplitJoinOneChar | meld/colfuncs.py:22-40 | splitting on a one-character separator that no name contains undoes joining with it |
| Colfuncs.RaggedTruncated | meld/colfuncs.py:22 | names of three and two pieces inflate to two levels: the third piece is dropped, not rejected |
| Colfuncs.DefaultSeparatorsDiffer | meld/colfuncs.py:7-40 | collapsing with the default "_" and inflating with the default " " leaves a single level holding the whole name |
| Utils.GetFeatureData | meld/utils.py:90-116 | only columns of the table that are not metadata under the marker and mode |
| Utils.GetMetadata | meld/utils.py:119-145 | only columns of the table that are metadata under the marker and mode |
| Utils.ClassifierPartition | meld/utils.py:112-145 | the feature and metadata lists interleave to the column list: each list keeps the original column order |
| Utils.ClassifierMultiset | meld/utils.py:112-145 | together the feature and metadata lists hold every column exactly once |
| Utils.ClassifierMembership | meld/utils.py:112-144 | a column is a feature iff it is not metadata, and metadata iff it starts with (prefix mode) or contains the marker |
| Utils.NoMarkerAllFeatures | meld/utils.py:112-144 | when no column matches the marker, every column is a feature and none is metadata |
| Utils.FirstMissing | meld/utils.py:66-69 | none iff every key is a column; otherwise a key that is not a column |
| Utils.CheckInputs | meld/utils.py:54-69 | an invalid method fails with that method before any column is looked at; otherwise it passes iff every key is a column, and a failure names a missing key |
| Utils.SumRejected | meld/utils.py:56-61 | "sum" is rejected for every table and key |
| Utils.NonNumericUpToSpec | meld/utils.py:82-86 | the columns collected so far are exactly the offending ones among those scanned |
| Utils.NonNumericSpec | meld/utils.py:76-86 | a name is reported iff some non-numeric feature column has it that is not the single string key |
| Utils.ListKeyNotExempt | meld/utils.py:77 | a non-numeric feature key is exempt when passed as a string and reported when passed as a one-element list |
| Utils.CheckFeatureData | meld/utils.py:72-87 | fails with numpy's ValueError iff no column is left to check; otherwise passes iff no column offends, and a failure carries the list of all offending columns in column order |
| Utils.CellOrder | meld/utils.py:31 | the order used for one key cell is a strict total order |
| Utils.KeyOrder | meld/utils.py:31 | the order used for keys is a strict total order |
| Utils.IndexOf | meld/utils.py:31 | the first position of a column name |
| Utils.KeyColumns | meld/utils.py:31 | the position of each key column, in key order |
| Utils.RowKey | meld/utils.py:31 | a row's key holds the row's key cells in key order |
| Utils.RowKeys | meld/utils.py:31 | one key per row, in row order |
| Utils.Positions | meld/utils.py:31 | every row holding the key, exactly once each, in ascending row order |
| Utils.PositionsFirst | meld/utils.py:42 | the first position of a present key has no earlier row with that key (the row `drop_duplicates` keeps) |
| Utils.ColumnValues | meld/utils.py:32-35 | one value per row of the group |
| Utils.GroupRow | meld/utils.py:32-49 | a group's output row has one cell per input column |
| Utils.Grouped | meld/utils.py:30-49 | the grouped table keeps the column names and their dtype tags |
| Utils.ReducedNumeric | meld/utils.py:28-35 | a reduced column passed the numeric check, so it is numeric |
| Utils.GroupedWellFormed | meld/utils.py:45-50 | rows built for any list of present keys form a well-formed table |
| Utils.Aggregation | meld/utils.py:8-51 | a success had a valid method and keeps the column names and dtype tags (`meld/utils.py:49-50`) |
| Utils.NoOffending | meld/utils.py:80 | the list of non-numeric feature columns is empty iff no column offends |
| Utils.GroupRowKey | meld/utils.py:40-46 | a group's output row carries the group's key |
| Utils.GroupedKeys | meld/utils.py:31 | the output rows' keys are the input's distinct keys in ascending order |
| Utils.AggregationIsGrouped | meld/utils.py:27-31 | a success means the checks passed and the result is the grouped table for the selected reducer |
| Utils.AggregateGroups | meld/utils.py:25-31 | the output keys are strictly ascending and are exactly the input's keys, one row per distinct key |
| Utils.AggregateCells | meld/utils.py:32-49 | each output row's key occurs in the input. A metadata or key column holds the first such row's value. Any other column is numeric and holds the group's median or mean |
| Utils.GroupedCells | meld/utils.py:32-49 | the cells of the grouped table, as above, for a given reducer |
| Utils.GroupRowCell | meld/utils.py:32-49 | the cells of one group's row, as above |
| Utils.AggregateSingleRowGroup | meld/utils.py:32-49 | a key held by one input row only yields that row unchanged |
| Utils.GroupedSingleRow | meld/utils.py:32-49 | for any reducer, the grouped row of a key held by one input row is that row |
| Utils.GroupRowSingle | meld/utils.py:32-49 | one cell of such a row is unchanged: a kept column copies it, a reduced column reduces one value |
| Utils.GroupedRowOfKey | meld/utils.py:31-49 | each output row's key occurs in the input and the row is the one built for that key's group |
| Utils.PositionsSingle | meld/utils.py:31 | a key held by one row has that row as its whole group |
| Utils.PositionsAbsent | meld/utils.py:31 | a key held by no row has an empty group |
| Utils.AggregateFails | meld/utils.py:27-28 | aggregation fails iff the method is invalid, a key is missing, no column is left to check, a feature column is non-numeric, or the key is an empty list |
| Utils.KeyOnlyFeatureFails | meld/utils.py:76-80 | a table whose only non-metadata column is the string key fails with the empty-check error |
| Utils.Aggregate | meld/utils.py:8-51 | the step-by-step checks and grouping compute the aggregation function |
| Order.LexStrictTotalOrder | meld/utils.py:31 | lexicographic comparison (Python's for strings and tuples) of a strict total order is one |
| Order.LexIrreflexive | meld/utils.py:31 | no sequence is below itself |
| Order.LexTransitive | meld/utils.py:31 | lexicographic order is transitive |
| Order.LexTotal | meld/utils.py:31 | any two distinct sequences are comparable |
| Order.InsertDistinctSorted | meld/utils.py:31 | inserting a key into a strictly ascending list keeps it so, headed by the smaller of the key and the old head |
| Order.InsertDistinctElems | meld/utils.py:31 | inserting adds exactly that key |
| Order.SortDistinctSpec | meld/utils.py:31 | the group keys are strictly ascending, hold exactly the input's values, and number as many as the distinct values |
| Order.StrictlySortedCard | meld/utils.py:31 | a strictly ascending list repeats nothing |
| Stats.ReducerOf | meld/utils.py:32-37 | "mean", "median" and "sum" each select their reduction, each iff the method is that name |
| Stats.InsertSorted | meld/utils.py:35 | inserting into an ascending list keeps it ascending, headed by the smaller of the value and the old head |
| Stats.InsertMultiset | meld/utils.py:35 | inserting adds exactly that value |
| Stats.SortSpec | meld/utils.py:35 | sorting gives an ascending permutation |
| Stats.SortedLength | meld/utils.py:35 | sorting keeps the number of values |
| Stats.SortedHead | meld/utils.py:35 | the first value of an ascending list is its least |
| Stats.SortedTail | meld/utils.py:35 | the tail of an ascending list is ascending and holds the other values |
| Stats.SortedUnique | meld/utils.py:35 | two ascending lists with the same values are equal |
| Stats.MedianPermutation | meld/utils.py:35 | the median of a group does not depend on the order of its rows |
| Stats.MedianOfOne | meld/utils.py:35 | the median of one value is that value |
| Stats.MedianOfTwo | meld/utils.py:35 | the median of two values is their average |
| Stats.MedianBounds | meld/utils.py:35 | the median lies within any bounds of the values |
| Stats.MeanOfOne | meld/utils.py:33 | the mean of one value is that value |
| Stats.ReduceOfOne | meld/utils.py:33-35 | each reduction of a single value gives that value |
| Stats.SumBounds | meld/utils.py:37 | n values within bounds sum to within n times the bounds |
| Stats.MeanBounds | meld/utils.py:33 | the mean lies within any bounds of the values |
| MergeToDb.GetFileName | meld/merge_to_db.py:333-336 | always ends with ".csv"; unchanged iff the name already ends with it; otherwise the name plus ".csv" |
| MergeToDb.FileNameIdempotent | meld/merge_to_db.py:333-336 | adding the extension twice adds it once |
| MergeToDb.GetTableName | meld/merge_to_db.py:314-317 | a name not ending with ".csv" is kept |
| MergeToDb.TableNameRemovesEveryOccurrence | meld/merge_to_db.py:314-315 | a name ending with ".csv" loses every occurrence of ".csv": the result joins the pieces between them |
| MergeToDb.FileAndTableName | meld/merge_to_db.py:314-336 | a base name without ".csv" gets the extension, and the table name of it or of its file name is the base name |
| MergeToDb.CsvSeparated | meld/merge_to_db.py:315 | in a name without ".csv" followed by ".csv", the first match is the appended one |
| MergeToDb.AggTableName | meld/merge_to_db.py:198 | the aggregated table name is the table name of `select` followed by "_agg", so `select` itself when it has no ".csv" ending |
| MergeToDb.DefaultNames | meld/merge_to_db.py:90 | the default `select` gives file "DATA.csv" and tables "DATA" and "DATA_agg" |
| MergeToDb.DbFileName | meld/merge_to_db.py:81-82 | the name always ends, ignoring case, with ".sqlite" or ".sqlite3"; it is unchanged iff it already did; otherwise ".sqlite" is added |
| MergeToDb.DbFileNameIdempotent | meld/merge_to_db.py:81-82 | naming a named database changes nothing |
| MergeToDb.DefaultDbFileName | meld/merge_to_db.py:58-82 | the default database file is "results.sqlite" |
| MergeToDb.DbHandle | meld/merge_to_db.py:83-87 | the handle is "sqlite:///" followed by `os.path.join(location, file name)`: the file name alone when it is absolute, `location` and the file name when `location` is empty or ends with "/", and `location`, "/" and the file name otherwise |
| MergeToDb.LoadFile | meld/merge_to_db.py:122-144 | a single header row is read as is. Otherwise a flat header fails with `HeaderError`, and a multi-level one succeeds with its tuples collapsed by "_" and the data unchanged |
| MergeToDb.AggregateLoadedAsWritten | meld/merge_to_db.py:205-225 | as written: `prefix` reaches `aggregate` only with a single header row; with several it is False |
| MergeToDb.AggregateLoaded | meld/merge_to_db.py:207 | the intended step: aggregate on the key with `prefix`, keeping the column names |
| MergeToDb.PrefixDroppedWithMultiHeader | meld/merge_to_db.py:205-225 | with several header rows and `prefix=True`, a text column containing but not starting with "Metadata" is refused by the intended step, and the as-written step differs |
| MergeToDb.AggregateFile | meld/merge_to_db.py:205-225 | a load error is the file's error; otherwise the file's result is the aggregation of the loaded table |
| MergeToDb.AggregateOne | meld/merge_to_db.py:205-225 | loading then aggregating step by step computes the file's result |
| MergeToDb.AppendLoaded | meld/merge_to_db.py:121-148 | loads and appends the files in order and stops at the first failing load, whose error it returns |
| MergeToDb.AppendAggregated | meld/merge_to_db.py:204-228 | aggregates and appends the files in order and stops at the first failing file, whose error it returns |
| MergeToDb.SelectFiles | meld/merge_to_db.py:117 | the selection holds only paths from the list and every path that ends with the file name |
| MergeToDb.SelectFilesAppend | meld/merge_to_db.py:117 | selecting from two lists in a row is selecting from each in turn, so the paths keep their order and repeats |
| MergeToDb.SelectFilesOne | meld/merge_to_db.py:117 | a single path is selected iff it ends with the file name |
| MergeToDb.JoinAll | meld/merge_to_db.py:49-51 | one path per file of a directory, each `os.path.join(root, filename)` |
| MergeToDb.WalkPathsEmpty | meld/merge_to_db.py:47-54 | the walk yields no path iff no directory holds a file |
| MergeToDb.WalkPathsEndWithFileNames | meld/merge_to_db.py:47-51 | every walked path ends with the name of a listed file |
| MergeToDb.LoadResults | meld/merge_to_db.py:121-148 | the load result of each selected file, in order |
| MergeToDb.AggregateResults | meld/merge_to_db.py:204-228 | the aggregated result of each selected file, in order |
| MergeToDb.AppendedUnique | meld/merge_to_db.py:121-148 | stopping at the first error determines the appended tables and the outcome |
| MergeToDb.AllOrFirstErrorOk | meld/merge_to_db.py:276-297 | `to_csv_agg` succeeds iff every file does |
| MergeToDb.Merger.constructor | meld/merge_to_db.py:52-56 | the file paths are kept; handle and engine start unset |
| MergeToDb.Merger.Open | meld/merge_to_db.py:31-56 | refuses a non-directory and a tree without files. A new merger holds the walked paths in walk order and has no database |
| MergeToDb.Merger.CreateDb | meld/merge_to_db.py:58-88 | sets the handle for the named file and an engine for it; the paths are unchanged; the database check then passes |
| MergeToDb.Merger.CheckDatabase | meld/merge_to_db.py:338-341 | passes iff both engine and handle are set; otherwise `RuntimeError` |
| MergeToDb.Merger.ToDb | meld/merge_to_db.py:90-148 | fails with no database before any work, then with no matching file. Otherwise it appends each selected file's load under the table name, in order, up to the first failing load, whose error it returns |
| MergeToDb.Merger.ToDbAgg | meld/merge_to_db.py:150-228 | the same, with each file aggregated and appended to `select` + "_agg" |
| MergeToDb.Merger.ToCsvAgg | meld/merge_to_db.py:230-297 | needs no database. Fails with no matching file. Otherwise every selected file's aggregation in file order, or the error of the first file that fails |

## Left out

- File reading, `pd.concat` of chunks, `to_sql`, `to_csv` and `sqlalchemy.create_engine` are foreign calls. Reading a file is a function parameter (`readFlat` for `header=0`, `readMulti` otherwise). The tables a method would append or save are returned. The engine is represented by the URL it was created for.
- `os.path.isdir` and `os.walk` are file-system I/O. They are the parameters `isDirectory` and `walk`. An unreadable directory gives an empty walk, because `os.walk` ignores the listing error by default. Python then raises `AttributeError` at `meld/merge_to_db.py:52`, since `self.file_paths` was never set. The model reports that case as "no files" instead.
- The "database will be extended" warning (`meld/merge_to_db.py:84-86`) and the `print` in `inflate_cols` (`meld/colfuncs.py:23`) have no effect on results.
- The keyword arguments for `pd.read_csv` are left out with the reader. In the multi-row-header branches (`meld/merge_to_db.py:225, 294`) they are also forwarded to `aggregate`, where any of them would raise `TypeError`.
- `pd.concat` of the aggregated tables in `to_csv_agg` (`meld/merge_to_db.py:296`): the model returns the tables in order and does not model the column union pandas would do.
- `pd.MultiIndex.from_frame` is modelled by its tuples (`Colfuncs.Transpose`).
- numpy dtypes are an abstract numeric tag per column, and `np.median` / `np.mean` are computed over mathematical reals. Floating-point rounding, NaN values and NaN keys are not modelled.
- Duplicate column names are not modelled. The model takes the first column of a name, where pandas would select all of them.
- The outer merge with suffixes (`meld/utils.py:45-46`) is modelled by its observable result: key and metadata columns from the group's first row, other columns reduced. The final assertion on the column count (`meld/utils.py:50`) is a postcondition (`Utils.Aggregation`).
- The `isinstance(data, pd.DataFrame)` check (`meld/utils.py:57-58`): the model's input is always a table.
- `str.lower` is modelled for ASCII letters only.
- `HeaderError` and the Python 2 `NotADirectoryError` class (`meld/merge_to_db.py:344-355`) are error values in `Errors.Error`.
- Utils.GroupedWellFormed, Utils.Grouped, Utils.GroupRow: their own contracts state only shape. The cell contents are stated by Utils.GroupedCells, Utils.GroupRowCell and Utils.AggregateCells.
- MergeToDb.GetTableName: its own contract covers only the unchanged case. The removal of every ".csv" is stated by MergeToDb.TableNameRemovesEveryOccurrence.
- MergeToDb.Merger.ToDbAgg, MergeToDb.Merger.ToCsvAgg: they use the corrected per-file step MergeToDb.AggregateLoaded, so `prefix` is honoured with several header rows too (see Findings).

## Findings

| source | as written | input that shows it | evidently intended | confidence | as-written member | corrected member |
|---|---|---|---|---|---|---|
| meld/merge_to_db.py:225 | with several header rows, `aggregate` is called (here and again at line 294) with the read options instead of `prefix=prefix`, so `prefix` falls back to False | `header=[0, 1]`, `prefix=True`, a text column collapsed to `Cells_Metadata_Label`: it is classified as metadata and passes, where the single-header branch would refuse it as non-numeric feature data | `prefix` is passed on in both branches, as in the single-header branch (`meld/merge_to_db.py:207, 279`) | not executed | MergeToDb.AggregateLoadedAsWritten, MergeToDb.PrefixDroppedWithMultiHeader | MergeToDb.AggregateLoaded |
