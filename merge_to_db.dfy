/** The `Merger` of `meld/merge_to_db.py`: it collects the result files of a
    directory tree, then appends every file whose name matches `select` to a
    database table, either as is or after aggregating replicates.

    The file system, `pd.read_csv`, `to_sql` and `to_csv` are not part of the
    model: the directory walk is given as a list of (root, file names)
    entries, reading a file is a function parameter, and the tables a method
    would append or save are returned. */
module MergeToDb {

  import opened Errors
  import opened Text
  import opened Stats
  import opened Colfuncs
  import opened Utils

  // ---------------------------------------------------------------------
  // Defaults of the Python signatures

  const DefaultSelect: string := "DATA"
  const DefaultBy: string := "Image_ImageNumber"
  const DefaultDbName: string := "results"
  const CsvSuffix: string := ".csv"
  const AggSuffix: string := "_agg"

  // ---------------------------------------------------------------------
  // get_file_name / get_table_name

  /** `get_file_name`: `select` with a ".csv" extension, added if missing. */
  function GetFileName(select: string): (r: string)
    ensures EndsWith(r, CsvSuffix)
    ensures r == select <==> EndsWith(select, CsvSuffix)
    ensures r == select || r == select + CsvSuffix
  {
    if EndsWith(select, CsvSuffix) then select else select + CsvSuffix
  }

  /** Adding the extension twice adds it once. */
  lemma FileNameIdempotent(select: string)
    ensures GetFileName(GetFileName(select)) == GetFileName(select)
  {
  }

  /** `get_table_name`: a name not ending in ".csv" is kept; otherwise every
      occurrence of ".csv" is removed, not only the final one. */
  function GetTableName(select: string): (r: string)
    ensures !EndsWith(select, CsvSuffix) ==> r == select
  {
    if EndsWith(select, CsvSuffix) then ReplaceAll(select, CsvSuffix, "") else select
  }

  /** The table name is the concatenation of the pieces between the
      occurrences of ".csv". */
  lemma TableNameRemovesEveryOccurrence(select: string)
    requires EndsWith(select, CsvSuffix)
    ensures GetTableName(select) == Join(Split(select, CsvSuffix), "")
  {
    ReplaceAllIsJoinSplit(select, CsvSuffix, "");
  }

  /** For a base name holding no ".csv", the file name adds the extension and
      the table name of either form is the base name. */
  lemma FileAndTableName(base: string)
    requires !Contains(base, CsvSuffix)
    ensures GetFileName(base) == base + CsvSuffix
    ensures GetTableName(base) == base
    ensures GetTableName(GetFileName(base)) == base
  {
    EndsWithContains(base, CsvSuffix);
    CsvSeparated(base);
    RemoveSuffixOccurrence(base, CsvSuffix);
  }

  /** ".csv" has no border (no proper prefix of it is also a suffix), so a
      name without ".csv" is separated from an appended ".csv". */
  lemma {:induction false} CsvSeparated(x: string)
    requires !Contains(x, CsvSuffix)
    ensures Separated(x, CsvSuffix)
  {
    CsvMatchFree(x + CsvSuffix, |x|);
  }

  lemma {:induction false} CsvMatchFree(s: string, n: nat)
    requires n + 4 == |s| && s[n..] == CsvSuffix && !Contains(s[..n], CsvSuffix)
    ensures MatchFreeBefore(s, CsvSuffix, n)
    decreases n
  {
    if n > 0 {
      assert !StartsWith(s, CsvSuffix) by {
        if n >= 4 {
          assert s[..4] == s[..n][..4];
        } else {
          assert s[n] == s[n..][0] == CsvSuffix[0];
          assert CsvSuffix[n] != CsvSuffix[0];
          assert s[..4][n] == s[n];
        }
      }
      assert s[1..][..n - 1] == s[..n][1..];
      assert s[1..][n - 1..] == s[n..];
      CsvMatchFree(s[1..], n - 1);
    }
  }

  /** The table `to_db_agg` appends to. */
  function AggTableName(select: string): (r: string)
    ensures EndsWith(r, AggSuffix)
    ensures |r| == |GetTableName(select)| + |AggSuffix| && r[..|GetTableName(select)|] == GetTableName(select)
    ensures !EndsWith(select, CsvSuffix) ==> r == select + AggSuffix
  {
    GetTableName(select) + AggSuffix
  }

  /** With the default `select`, files "DATA.csv" go to tables "DATA" and
      "DATA_agg". */
  lemma DefaultNames()
    ensures GetFileName(DefaultSelect) == "DATA.csv"
    ensures GetTableName(DefaultSelect) == "DATA"
    ensures AggTableName(DefaultSelect) == "DATA_agg"
  {
    assert !EndsWith(DefaultSelect, CsvSuffix) by {
      assert DefaultSelect[0..] != CsvSuffix;
    }
  }

  // ---------------------------------------------------------------------
  // create_db

  const SqliteSuffix: string := ".sqlite"
  const Sqlite3Suffix: string := ".sqlite3"

  predicate HasDbSuffix(name: string) {
    EndsWith(Lower(name), SqliteSuffix) || EndsWith(Lower(name), Sqlite3Suffix)
  }

  /** The database file name: `db_name`, with ".sqlite" added unless it
      already ends, ignoring case, with ".sqlite" or ".sqlite3". */
  function DbFileName(dbName: string): (r: string)
    ensures HasDbSuffix(r)
    ensures r == dbName <==> HasDbSuffix(dbName)
    ensures !HasDbSuffix(dbName) ==> r == dbName + SqliteSuffix
  {
    if HasDbSuffix(dbName) then dbName
    else
      SqliteAdded(dbName);
      dbName + SqliteSuffix
  }

  lemma SqliteAdded(dbName: string)
    ensures HasDbSuffix(dbName + SqliteSuffix)
  {
    var n := dbName + SqliteSuffix;
    LowerAppend(dbName, SqliteSuffix);
    assert Lower(SqliteSuffix) == SqliteSuffix;
    assert Lower(n)[|Lower(n)| - |SqliteSuffix|..] == Lower(SqliteSuffix);
  }

  /** Naming an already named database changes nothing. */
  lemma DbFileNameIdempotent(dbName: string)
    ensures DbFileName(DbFileName(dbName)) == DbFileName(dbName)
  {
  }

  /** `db_handle`: the SQLAlchemy URL of the database file in `location`. */
  function DbHandle(location: string, dbName: string): (r: string)
    ensures StartsWith(r, "sqlite:///")
    ensures EndsWith(r, DbFileName(dbName))
    ensures StartsWith(DbFileName(dbName), "/") ==> r == "sqlite:///" + DbFileName(dbName)
    ensures !StartsWith(DbFileName(dbName), "/") && (location == "" || EndsWith(location, "/")) ==>
              r == "sqlite:///" + location + DbFileName(dbName)
    ensures !StartsWith(DbFileName(dbName), "/") && location != "" && !EndsWith(location, "/") ==>
              r == "sqlite:///" + location + "/" + DbFileName(dbName)
  {
    var path := PathJoin(location, DbFileName(dbName));
    EndsWithPrepend("sqlite:///", path, DbFileName(dbName));
    "sqlite:///" + path
  }

  /** The default database is "results.sqlite". */
  lemma DefaultDbFileName()
    ensures DbFileName(DefaultDbName) == "results.sqlite"
  {
    assert !HasDbSuffix(DefaultDbName) by {
      assert Lower(DefaultDbName) == DefaultDbName;
      assert DefaultDbName[0] != SqliteSuffix[0];
    }
  }

  // ---------------------------------------------------------------------
  // Reading files

  /** The `header` argument: one header row number, or a list of them. */
  datatype HeaderArg = Row(n: int) | Rows(ns: seq<int>)

  /** `header == 0 or header == [0]`: the file has a single header row and
      its columns are not collapsed. */
  predicate SingleHeader(header: HeaderArg) {
    header == Row(0) || header == Rows([0])
  }

  /** The columns `pd.read_csv` produces: flat names, or a multi-level header
      of tuples. */
  datatype ColumnIndex = Flat(names: seq<string>) | Multi(tuples: Header)

  function Width(c: ColumnIndex): nat {
    match c
    case Flat(names) => |names|
    case Multi(tuples) => |tuples|
  }

  datatype Sheet = Sheet(columns: ColumnIndex, numeric: seq<bool>, rows: seq<seq<Cell>>)

  predicate SheetWellFormed(s: Sheet) {
    && |s.numeric| == Width(s.columns)
    && (forall i :: 0 <= i < |s.rows| ==> |s.rows[i]| == Width(s.columns))
    && (forall i, j :: 0 <= i < |s.rows| && 0 <= j < Width(s.columns) && s.numeric[j] ==> s.rows[i][j].Num?)
  }

  /** A file as `pd.read_csv` returns it for a header argument. */
  type Loaded = s: Sheet | SheetWellFormed(s) witness Sheet(Flat([]), [], [])

  /** One file as the `to_db*` methods load it: with a single header row it
      is read as is; otherwise it must come back with a multi-level header,
      whose tuples are collapsed with "_", or the load fails. */
  function LoadFile(path: string, header: HeaderArg, readFlat: string -> Table,
                    readMulti: (string, HeaderArg) -> Loaded): (r: Result<Table>)
    ensures SingleHeader(header) ==> r == Ok(readFlat(path))
    ensures !SingleHeader(header) ==>
              (r.Err? <==> readMulti(path, header).columns.Flat?)
    ensures r.Err? ==> r.error == MultiHeaderNotMultiIndexed
    ensures !SingleHeader(header) && r.Ok? ==>
              && r.value.names == CollapseCols(readMulti(path, header).columns.tuples, CollapseSep)
              && r.value.numeric == readMulti(path, header).numeric
              && r.value.rows == readMulti(path, header).rows
  {
    if SingleHeader(header) then Ok(readFlat(path))
    else
      var s := readMulti(path, header);
      match s.columns
      case Flat(_) => Err(MultiHeaderNotMultiIndexed)
      case Multi(tuples) =>
        var t: Table := Grid(CollapseCols(tuples, CollapseSep), s.numeric, s.rows);
        Ok(t)
  }

  // ---------------------------------------------------------------------
  // Aggregating one file, and the prefix finding

  /** `to_db_agg` and `to_csv_agg` as written: the single-header branch
      passes `prefix` on to `aggregate`, but the multi-header branch passes
      the read options instead, so `prefix` falls back to False. */
  function AggregateLoadedAsWritten(t: Table, header: HeaderArg, key: string, statistic: string, prefix: bool)
    : (r: Result<Table>)
    ensures SingleHeader(header) ==> r == Aggregation(t, Column(key), statistic, DefaultMarker, prefix)
    ensures !SingleHeader(header) ==> r == Aggregation(t, Column(key), statistic, DefaultMarker, false)
  {
    if SingleHeader(header) then Aggregation(t, Column(key), statistic, DefaultMarker, prefix)
    else Aggregation(t, Column(key), statistic, DefaultMarker, false)
  }

  /** The aggregation the two methods evidently intend: `prefix` is honoured
      whatever the header. */
  function AggregateLoaded(t: Table, key: string, statistic: string, prefix: bool): (r: Result<Table>)
    ensures r.Ok? ==> r.value.names == t.names
  {
    Aggregation(t, Column(key), statistic, DefaultMarker, prefix)
  }

  /** With several header rows and `prefix=True`, a text column whose name
      contains "Metadata" without starting with it is feature data, and the
      intended aggregation refuses it as non-numeric; as written, the column
      is taken for metadata and is not reported. */
  lemma PrefixDroppedWithMultiHeader(t: Table, header: HeaderArg, key: string, statistic: string, j: nat)
    requires !SingleHeader(header)
    requires statistic in ValidMethods && key in t.names
    requires j < |t.names| && !t.numeric[j] && t.names[j] != key
    requires Contains(t.names[j], DefaultMarker) && !StartsWith(t.names[j], DefaultMarker)
    ensures AggregateLoaded(t, key, statistic, true).Err?
    ensures AggregateLoaded(t, key, statistic, true).error.NonNumericFeatures?
    ensures t.names[j] in AggregateLoaded(t, key, statistic, true).error.columns
    ensures AggregateLoadedAsWritten(t, header, key, statistic, true) != AggregateLoaded(t, key, statistic, true)
  {
    assert Offending(t, j, Column(key), DefaultMarker, true);
    NonNumericSpec(t, Column(key), DefaultMarker, true, t.names[j]);
    NonNumericSpec(t, Column(key), DefaultMarker, false, t.names[j]);
  }

  /** The aggregation step of `to_db_agg` / `to_csv_agg` for one file. */
  function AggregateFile(path: string, header: HeaderArg, key: string, statistic: string, prefix: bool,
                         readFlat: string -> Table, readMulti: (string, HeaderArg) -> Loaded): (r: Result<Table>)
    ensures LoadFile(path, header, readFlat, readMulti).Err? ==>
              r == Err(LoadFile(path, header, readFlat, readMulti).error)
    ensures LoadFile(path, header, readFlat, readMulti).Ok? ==>
              r == AggregateLoaded(LoadFile(path, header, readFlat, readMulti).value, key, statistic, prefix)
  {
    match LoadFile(path, header, readFlat, readMulti)
    case Err(e) => Err(e)
    case Ok(t) => AggregateLoaded(t, key, statistic, prefix)
  }

  /** Load one file and aggregate it, step by step. */
  method AggregateOne(path: string, header: HeaderArg, key: string, statistic: string, prefix: bool,
                      readFlat: string -> Table, readMulti: (string, HeaderArg) -> Loaded)
    returns (r: Result<Table>)
    ensures r == AggregateFile(path, header, key, statistic, prefix, readFlat, readMulti)
  {
    var loaded := LoadFile(path, header, readFlat, readMulti);
    if loaded.Err? {
      return Err(loaded.error);
    }
    r := Aggregate(loaded.value, Column(key), statistic, DefaultMarker, prefix);
  }

  // ---------------------------------------------------------------------
  // Selecting files

  /** The paths ending with `fileName`, in order. */
  function SelectFiles(paths: seq<string>, fileName: string): (r: seq<string>)
    ensures |r| <= |paths|
    ensures forall x :: x in r <==> x in paths && EndsWith(x, fileName)
    decreases |paths|
  {
    if |paths| == 0 then []
    else (if EndsWith(paths[0], fileName) then [paths[0]] else []) + SelectFiles(paths[1..], fileName)
  }

  /** Selecting from two lists of paths one after the other selects from
      each in turn: the selection keeps the paths' order and repeats. */
  lemma {:induction false} SelectFilesAppend(a: seq<string>, b: seq<string>, fileName: string)
    ensures SelectFiles(a + b, fileName) == SelectFiles(a, fileName) + SelectFiles(b, fileName)
    decreases |a|
  {
    if |a| > 0 {
      assert (a + b)[1..] == a[1..] + b;
      SelectFilesAppend(a[1..], b, fileName);
    } else {
      assert a + b == b;
    }
  }

  /** A single path is selected exactly when it ends with the file name. */
  lemma SelectFilesOne(x: string, fileName: string)
    ensures SelectFiles([x], fileName) == if EndsWith(x, fileName) then [x] else []
  {
    assert [x][1..] == [];
  }

  /** One entry of `os.walk`: a directory and the names of its files. */
  datatype WalkEntry = WalkEntry(root: string, files: seq<string>)

  function JoinAll(root: string, files: seq<string>): (r: seq<string>)
    ensures |r| == |files| && forall f :: 0 <= f < |files| ==> r[f] == PathJoin(root, files[f])
  {
    seq(|files|, f requires 0 <= f < |files| => PathJoin(root, files[f]))
  }

  /** Every file of the walk, as `os.path.join(root, filename)`, in walk
      order. */
  function WalkPaths(walk: seq<WalkEntry>): seq<string>
    decreases |walk|
  {
    if |walk| == 0 then []
    else WalkPaths(walk[..|walk| - 1]) + JoinAll(walk[|walk| - 1].root, walk[|walk| - 1].files)
  }

  /** The walk yields a path for each file it lists: none exactly when no
      directory holds a file. */
  lemma {:induction false} WalkPathsEmpty(walk: seq<WalkEntry>)
    ensures |WalkPaths(walk)| == 0 <==> forall e :: 0 <= e < |walk| ==> |walk[e].files| == 0
    decreases |walk|
  {
    if |walk| > 0 {
      WalkPathsEmpty(walk[..|walk| - 1]);
    }
  }

  /** `path` ends with the name of a file the walk lists. */
  ghost predicate EndsWithListedFile(path: string, walk: seq<WalkEntry>) {
    exists e, f :: 0 <= e < |walk| && 0 <= f < |walk[e].files| && EndsWith(path, walk[e].files[f])
  }

  /** Each walked path ends with the name of its file. */
  lemma {:induction false} WalkPathsEndWithFileNames(walk: seq<WalkEntry>)
    ensures forall k :: 0 <= k < |WalkPaths(walk)| ==> EndsWithListedFile(WalkPaths(walk)[k], walk)
    decreases |walk|
  {
    if |walk| > 0 {
      var init := walk[..|walk| - 1];
      var last := |walk| - 1;
      WalkPathsEndWithFileNames(init);
      var ps := WalkPaths(walk);
      assert ps == WalkPaths(init) + JoinAll(walk[last].root, walk[last].files);
      forall k | 0 <= k < |ps|
        ensures EndsWithListedFile(ps[k], walk)
      {
        if k < |WalkPaths(init)| {
          assert EndsWithListedFile(WalkPaths(init)[k], init);
          var e, f :| 0 <= e < |init| && 0 <= f < |init[e].files| && EndsWith(WalkPaths(init)[k], init[e].files[f]);
          assert walk[e] == init[e] && ps[k] == WalkPaths(init)[k];
        } else {
          var f := k - |WalkPaths(init)|;
          assert ps[k] == PathJoin(walk[last].root, walk[last].files[f]);
          assert EndsWith(ps[k], walk[last].files[f]);
        }
      }
    }
  }

  /** One table appended to a database table. */
  datatype Append = Append(table: string, data: Table)

  /** What loading each file gives. */
  function LoadResults(files: seq<string>, header: HeaderArg, readFlat: string -> Table,
                       readMulti: (string, HeaderArg) -> Loaded): (rs: seq<Result<Table>>)
    ensures |rs| == |files|
    ensures forall k :: 0 <= k < |files| ==> rs[k] == LoadFile(files[k], header, readFlat, readMulti)
  {
    seq(|files|, k requires 0 <= k < |files| => LoadFile(files[k], header, readFlat, readMulti))
  }

  /** What loading and aggregating each file gives. */
  function AggregateResults(files: seq<string>, header: HeaderArg, key: string, statistic: string, prefix: bool,
                            readFlat: string -> Table, readMulti: (string, HeaderArg) -> Loaded)
    : (rs: seq<Result<Table>>)
    ensures |rs| == |files|
    ensures forall k :: 0 <= k < |files| ==>
              rs[k] == AggregateFile(files[k], header, key, statistic, prefix, readFlat, readMulti)
  {
    seq(|files|, k requires 0 <= k < |files| =>
          AggregateFile(files[k], header, key, statistic, prefix, readFlat, readMulti))
  }

  /** A run that appends the result of each file, in order, to `table` and
      stops at the first result that is an error: the appended tables are
      the results before that error, and the outcome is that error, or Pass
      when every file was appended. */
  predicate AppendedUntilFirstError(results: seq<Result<Table>>, table: string, appended: seq<Append>, r: Outcome) {
    && AppendedPrefix(results, table, appended)
    && (r == Pass <==> |appended| == |results|)
    && (r.Fail? ==> |appended| < |results| && results[|appended|] == Err(r.error))
  }

  /** The appended tables are those of the first results, all of them Ok. */
  predicate AppendedPrefix(results: seq<Result<Table>>, table: string, appended: seq<Append>) {
    && |appended| <= |results|
    && (forall k :: 0 <= k < |appended| ==> results[k].Ok? && appended[k] == Append(table, results[k].value))
  }

  /** Appending the next result, when it is Ok, extends the prefix. */
  lemma AppendedNext(results: seq<Result<Table>>, table: string, appended: seq<Append>)
    requires AppendedPrefix(results, table, appended)
    requires |appended| < |results| && results[|appended|].Ok?
    ensures AppendedPrefix(results, table, appended + [Append(table, results[|appended|].value)])
  {
  }

  /** The appends and the outcome of such a run are determined by the
      results: there is exactly one way to stop at the first error. */
  lemma AppendedUnique(results: seq<Result<Table>>, table: string,
                       a1: seq<Append>, r1: Outcome, a2: seq<Append>, r2: Outcome)
    requires AppendedUntilFirstError(results, table, a1, r1)
    requires AppendedUntilFirstError(results, table, a2, r2)
    ensures a1 == a2 && r1 == r2
  {

  }

  /** Load the files one by one and append each to `table`, stopping at the
      first load that fails. */
  method AppendLoaded(files: seq<string>, table: string, header: HeaderArg, readFlat: string -> Table,
                      readMulti: (string, HeaderArg) -> Loaded) returns (appended: seq<Append>, r: Outcome)
    ensures AppendedUntilFirstError(LoadResults(files, header, readFlat, readMulti), table, appended, r)
  {
    ghost var results := LoadResults(files, header, readFlat, readMulti);
    appended := [];
    var i := 0;
    while i < |files|
      invariant 0 <= i <= |files| && |appended| == i
      invariant AppendedPrefix(results, table, appended)
    {
      var loaded := LoadFile(files[i], header, readFlat, readMulti);
      assert loaded == results[i];
      if loaded.Err? {
        return appended, Fail(loaded.error);
      }
      AppendedNext(results, table, appended);
      appended := appended + [Append(table, loaded.value)];
      i := i + 1;
    }
    r := Pass;
  }

  /** Load and aggregate the files one by one and append each result to
      `table`, stopping at the first file that fails. */
  method AppendAggregated(files: seq<string>, table: string, header: HeaderArg, key: string, statistic: string,
                          prefix: bool, readFlat: string -> Table, readMulti: (string, HeaderArg) -> Loaded)
    returns (appended: seq<Append>, r: Outcome)
    ensures AppendedUntilFirstError(AggregateResults(files, header, key, statistic, prefix, readFlat, readMulti),
                                    table, appended, r)
  {
    ghost var results := AggregateResults(files, header, key, statistic, prefix, readFlat, readMulti);
    appended := [];
    var i := 0;
    while i < |files|
      invariant 0 <= i <= |files| && |appended| == i
      invariant AppendedPrefix(results, table, appended)
    {
      var agg := AggregateOne(files[i], header, key, statistic, prefix, readFlat, readMulti);
      assert agg == results[i];
      if agg.Err? {
        return appended, Fail(agg.error);
      }
      AppendedNext(results, table, appended);
      appended := appended + [Append(table, agg.value)];
      i := i + 1;
    }
    r := Pass;
  }

  /** Every result is Ok and `r` holds them all, or `r` is the first error. */
  predicate AllOrFirstError(results: seq<Result<Table>>, r: Result<seq<Table>>) {
    && (r.Ok? ==> |r.value| == |results| && forall k :: 0 <= k < |results| ==> results[k] == Ok(r.value[k]))
    && (r.Err? ==> exists n :: 0 <= n < |results| && results[n] == Err(r.error)
                                 && forall k :: 0 <= k < n ==> results[k].Ok?)
  }

  /** `r` is Ok exactly when no file fails. */
  lemma AllOrFirstErrorOk(results: seq<Result<Table>>, r: Result<seq<Table>>)
    requires AllOrFirstError(results, r)
    ensures r.Ok? <==> forall k :: 0 <= k < |results| ==> results[k].Ok?
  {
  }

  // ---------------------------------------------------------------------
  // The Merger

  class Merger {
    var filePaths: seq<string>
    var dbHandle: Option<string>
    /** The engine, shown by the URL it was created for. */
    var engine: Option<string>

    /** The walk found files, and the engine is the one for the handle. */
    ghost predicate Valid()
      reads this
    {
      |filePaths| > 0 && engine == dbHandle
    }

    constructor (paths: seq<string>)
      requires |paths| > 0
      ensures filePaths == paths && dbHandle == None && engine == None
      ensures Valid()
    {
      filePaths := paths;
      dbHandle := None;
      engine := None;
    }

    /** `Merger(directory)`: refuse a path that is not a directory, gather
        the walked file paths, refuse a tree without files; no database yet. */
    static method Open(directory: string, isDirectory: bool, walk: seq<WalkEntry>) returns (r: Result<Merger>)
      ensures !isDirectory ==> r == Err(NotADirectory(directory))
      ensures isDirectory && |WalkPaths(walk)| == 0 ==> r == Err(NoFilesInDirectory(directory))
      ensures isDirectory && |WalkPaths(walk)| > 0 ==> r.Ok?
      ensures r.Ok? ==> fresh(r.value) && r.value.Valid() && r.value.filePaths == WalkPaths(walk)
                        && r.value.CheckDatabase() == Fail(NoDatabase)
    {
      if !isDirectory {
        return Err(NotADirectory(directory));
      }
      var paths: seq<string> := [];
      var i := 0;
      while i < |walk|
        invariant 0 <= i <= |walk|
        invariant paths == WalkPaths(walk[..i])
      {
        var entry := walk[i];
        var j := 0;
        while j < |entry.files|
          invariant 0 <= j <= |entry.files|
          invariant paths == WalkPaths(walk[..i]) + JoinAll(entry.root, entry.files[..j])
        {
          assert JoinAll(entry.root, entry.files[..j + 1])
                 == JoinAll(entry.root, entry.files[..j]) + [PathJoin(entry.root, entry.files[j])];
          paths := paths + [PathJoin(entry.root, entry.files[j])];
          j := j + 1;
        }
        assert walk[..i + 1][..i] == walk[..i];
        assert entry.files[..j] == entry.files;
        i := i + 1;
      }
      assert walk[..i] == walk;
      if |paths| == 0 {
        return Err(NoFilesInDirectory(directory));
      }
      var m := new Merger(paths);
      r := Ok(m);
    }

    /** `create_db(location, db_name)`: set the handle and the engine. */
    method CreateDb(location: string, dbName: string)
      requires Valid()
      modifies this
      ensures dbHandle == Some(DbHandle(location, dbName)) && engine == dbHandle
      ensures filePaths == old(filePaths)
      ensures Valid() && CheckDatabase() == Pass
    {
      dbHandle := Some(DbHandle(location, dbName));
      engine := dbHandle;
    }

    /** `check_database`: fails while the engine or the handle is unset. */
    function CheckDatabase(): (r: Outcome)
      reads this
      ensures r == Pass <==> engine.Some? && dbHandle.Some?
      ensures r.Fail? ==> r.error == NoDatabase
    {
      if engine.None? || dbHandle.None? then Fail(NoDatabase) else Pass
    }

    /** `to_db(select, header)`: check the database, select the files ending
        with the file name, fail if there is none, then load and append the
        files one by one to the table, stopping at the first load that fails. */
    method ToDb(select: string, header: HeaderArg, readFlat: string -> Table,
                readMulti: (string, HeaderArg) -> Loaded) returns (appended: seq<Append>, r: Outcome)
      ensures CheckDatabase().Fail? ==> appended == [] && r == Fail(NoDatabase)
      ensures CheckDatabase() == Pass && |SelectFiles(filePaths, GetFileName(select))| == 0 ==>
                appended == [] && r == Fail(NoMatchingFiles(GetFileName(select)))
      ensures CheckDatabase() == Pass && |SelectFiles(filePaths, GetFileName(select))| > 0 ==>
                AppendedUntilFirstError(LoadResults(SelectFiles(filePaths, GetFileName(select)), header, readFlat, readMulti),
                                        GetTableName(select), appended, r)
    {
      appended := [];
      var db := CheckDatabase();
      if db.Fail? {
        return [], db;
      }
      var fileName := GetFileName(select);
      var tableName := GetTableName(select);
      var files := SelectFiles(filePaths, fileName);
      if |files| == 0 {
        return [], Fail(NoMatchingFiles(fileName));
      }
      appended, r := AppendLoaded(files, tableName, header, readFlat, readMulti);
    }

    /** `to_db_agg(select, header, by, method, prefix)`: as `to_db`, but
        each file is aggregated on the key column before it is appended to
        the table `select` + "_agg". */
    method ToDbAgg(select: string, header: HeaderArg, key: string, statistic: string, prefix: bool,
                   readFlat: string -> Table, readMulti: (string, HeaderArg) -> Loaded)
      returns (appended: seq<Append>, r: Outcome)
      ensures CheckDatabase().Fail? ==> appended == [] && r == Fail(NoDatabase)
      ensures CheckDatabase() == Pass && |SelectFiles(filePaths, GetFileName(select))| == 0 ==>
                appended == [] && r == Fail(NoMatchingFiles(GetFileName(select)))
      ensures CheckDatabase() == Pass && |SelectFiles(filePaths, GetFileName(select))| > 0 ==>
                AppendedUntilFirstError(
                  AggregateResults(SelectFiles(filePaths, GetFileName(select)), header, key, statistic, prefix,
                                   readFlat, readMulti),
                  AggTableName(select), appended, r)
    {
      appended := [];
      var db := CheckDatabase();
      if db.Fail? {
        return [], db;
      }
      var fileName := GetFileName(select);
      var tableName := AggTableName(select);
      var files := SelectFiles(filePaths, fileName);
      if |files| == 0 {
        return [], Fail(NoMatchingFiles(fileName));
      }
      appended, r := AppendAggregated(files, tableName, header, key, statistic, prefix, readFlat, readMulti);
    }

    /** `to_csv_agg(save_location, select, header, by, method, prefix)`: no
        database is needed; every selected file is aggregated, and the
        aggregated tables, in file order, are what is concatenated and
        saved. Nothing is saved if any file fails: the error is that of the
        first file that fails. */
    method ToCsvAgg(select: string, header: HeaderArg, key: string, statistic: string, prefix: bool,
                    readFlat: string -> Table, readMulti: (string, HeaderArg) -> Loaded)
      returns (r: Result<seq<Table>>)
      ensures |SelectFiles(filePaths, GetFileName(select))| == 0 ==>
                r == Err(NoMatchingFiles(GetFileName(select)))
      ensures |SelectFiles(filePaths, GetFileName(select))| > 0 ==>
                AllOrFirstError(
                  AggregateResults(SelectFiles(filePaths, GetFileName(select)), header, key, statistic, prefix,
                                   readFlat, readMulti), r)
    {
      var fileName := GetFileName(select);
      var files := SelectFiles(filePaths, fileName);
      if |files| == 0 {
        return Err(NoMatchingFiles(fileName));
      }
      ghost var results := AggregateResults(files, header, key, statistic, prefix, readFlat, readMulti);
      var parts: seq<Table> := [];
      var i := 0;
      while i < |files|
        invariant 0 <= i <= |files| && |parts| == i
        invariant forall k :: 0 <= k < i ==> results[k] == Ok(parts[k])
      {
        var agg := AggregateOne(files[i], header, key, statistic, prefix, readFlat, readMulti);
        assert agg == results[i];
        if agg.Err? {
          return Err(agg.error);
        }
        parts := parts + [agg.value];
        i := i + 1;
      }
      r := Ok(parts);
    }
}
}
