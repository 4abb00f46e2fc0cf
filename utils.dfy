/** The column classifier and the replicate aggregator of `meld/utils.py`.

    A table is a list of column names, an abstract "numeric dtype" tag per
    column, and rows of cells. A column is metadata when its name contains
    the marker string (or, in prefix mode, starts with it); every other
    column is feature data. `aggregate` groups the rows by the key
    column(s), reduces each feature column of a group to its median or
    mean, and keeps the first row's values in the metadata and key
    columns. */
module Utils {

  import opened Errors
  import opened Text
  import opened Order
  import opened Stats

  // ---------------------------------------------------------------------
  // Tables

  /** A cell: a number, or any other value (shown by its text). */
  datatype Cell = Num(x: real) | Str(s: string)

  datatype Grid = Grid(names: seq<string>, numeric: seq<bool>, rows: seq<seq<Cell>>)

  /** Every row has one cell per column, and a column whose dtype is
      numeric holds only numbers. */
  predicate WellFormed(g: Grid) {
    && |g.numeric| == |g.names|
    && (forall i :: 0 <= i < |g.rows| ==> |g.rows[i]| == |g.names|)
    && (forall i, j :: 0 <= i < |g.rows| && 0 <= j < |g.names| && g.numeric[j] ==> g.rows[i][j].Num?)
  }

  /** A pandas DataFrame. */
  type Table = g: Grid | WellFormed(g) witness Grid([], [], [])

  /** The value a numeric cell holds. */
  function Value(c: Cell): real {
    match c
    case Num(x) => x
    case Str(_) => 0.0
  }

  // ---------------------------------------------------------------------
  // get_featuredata / get_metadata

  /** The default `metadata_string`. */
  const DefaultMarker: string := "Metadata"

  /** A column is metadata when its name starts with the marker (prefix
      mode) or contains it anywhere (default mode). */
  predicate IsMetadata(name: string, marker: string, prefix: bool) {
    if prefix then StartsWith(name, marker) else Contains(name, marker)
  }

  /** `get_featuredata`: the names that are not metadata, in column order. */
  function GetFeatureData(names: seq<string>, marker: string, prefix: bool): (f: seq<string>)
    ensures forall x :: x in f ==> x in names && !IsMetadata(x, marker, prefix)
    decreases |names|
  {
    if |names| == 0 then []
    else (if IsMetadata(names[0], marker, prefix) then [] else [names[0]])
         + GetFeatureData(names[1..], marker, prefix)
  }

  /** `get_metadata`: the names that are metadata, in column order. */
  function GetMetadata(names: seq<string>, marker: string, prefix: bool): (m: seq<string>)
    ensures forall x :: x in m ==> x in names && IsMetadata(x, marker, prefix)
    decreases |names|
  {
    if |names| == 0 then []
    else (if IsMetadata(names[0], marker, prefix) then [names[0]] else [])
         + GetMetadata(names[1..], marker, prefix)
  }

  /** `s` is an interleaving of `a` and `b`: each element of `s` is taken, in
      order, from the front of exactly one of them. */
  predicate Interleaving<T(==)>(s: seq<T>, a: seq<T>, b: seq<T>)
    decreases |s|
  {
    if |s| == 0 then a == [] && b == []
    else
      || (|a| > 0 && a[0] == s[0] && Interleaving(s[1..], a[1..], b))
      || (|b| > 0 && b[0] == s[0] && Interleaving(s[1..], a, b[1..]))
  }

  lemma {:induction false} InterleavingMultiset<T>(s: seq<T>, a: seq<T>, b: seq<T>)
    requires Interleaving(s, a, b)
    ensures multiset(a) + multiset(b) == multiset(s)
    decreases |s|
  {
    if |s| > 0 {
      assert s == [s[0]] + s[1..];
      if |a| > 0 && a[0] == s[0] && Interleaving(s[1..], a[1..], b) {
        InterleavingMultiset(s[1..], a[1..], b);
        assert a == [a[0]] + a[1..];
      } else {
        InterleavingMultiset(s[1..], a, b[1..]);
        assert b == [b[0]] + b[1..];
      }
    }
  }

  /** Feature and metadata columns together list every column, each list in
      the original column order. */
  lemma {:induction false} ClassifierPartition(names: seq<string>, marker: string, prefix: bool)
    ensures Interleaving(names, GetFeatureData(names, marker, prefix), GetMetadata(names, marker, prefix))
    decreases |names|
  {
    if |names| > 0 {
      var f, m := GetFeatureData(names[1..], marker, prefix), GetMetadata(names[1..], marker, prefix);
      ClassifierPartition(names[1..], marker, prefix);
      if IsMetadata(names[0], marker, prefix) {
        var m' := [names[0]] + m;
        assert GetMetadata(names, marker, prefix) == m';
        assert GetFeatureData(names, marker, prefix) == f;
        assert m'[0] == names[0] && m'[1..] == m;
      } else {
        var f' := [names[0]] + f;
        assert GetFeatureData(names, marker, prefix) == f';
        assert GetMetadata(names, marker, prefix) == m;
        assert f'[0] == names[0] && f'[1..] == f;
      }
    }
  }

  /** Every column is listed exactly once among the feature and metadata
      columns together. */
  lemma ClassifierMultiset(names: seq<string>, marker: string, prefix: bool)
    ensures multiset(GetFeatureData(names, marker, prefix)) + multiset(GetMetadata(names, marker, prefix))
            == multiset(names)
  {
    ClassifierPartition(names, marker, prefix);
    InterleavingMultiset(names, GetFeatureData(names, marker, prefix), GetMetadata(names, marker, prefix));
  }

  /** A column is a feature column exactly when it is not metadata, and a
      metadata column exactly when it is. */
  lemma {:induction false} ClassifierMembership(names: seq<string>, marker: string, prefix: bool, x: string)
    ensures x in GetFeatureData(names, marker, prefix) <==> x in names && !IsMetadata(x, marker, prefix)
    ensures x in GetMetadata(names, marker, prefix) <==> x in names && IsMetadata(x, marker, prefix)
    decreases |names|
  {
    if |names| > 0 {
      ClassifierMembership(names[1..], marker, prefix, x);
      assert x in names <==> x == names[0] || x in names[1..];
    }
  }

  /** When no name carries the marker, every column is feature data. */
  lemma {:induction false} NoMarkerAllFeatures(names: seq<string>, marker: string, prefix: bool)
    requires forall i :: 0 <= i < |names| ==> !IsMetadata(names[i], marker, prefix)
    ensures GetFeatureData(names, marker, prefix) == names
    ensures GetMetadata(names, marker, prefix) == []
    decreases |names|
  {
    if |names| > 0 {
      NoMarkerAllFeatures(names[1..], marker, prefix);
    }
  }

  // ---------------------------------------------------------------------
  // _check_inputs

  /** The methods `_check_inputs` accepts; "sum" is not among them. */
  const ValidMethods: seq<string> := ["median", "mean"]

  /** The `on` argument: one column name, or a list of them. */
  datatype On = Column(name: string) | Columns(names: seq<string>)

  function KeyNames(on: On): seq<string> {
    match on
    case Column(n) => [n]
    case Columns(ns) => ns
  }

  /** The first key, in order, that is not a column. */
  function FirstMissing(keys: seq<string>, names: seq<string>): (r: Option<string>)
    ensures r.None? <==> forall i :: 0 <= i < |keys| ==> keys[i] in names
    ensures r.Some? ==> exists i :: 0 <= i < |keys| && keys[i] == r.value && r.value !in names
                                    && forall h :: 0 <= h < i ==> keys[h] in names
    decreases |keys|
  {
    if |keys| == 0 then None
    else if keys[0] !in names then Some(keys[0])
    else
      var r := FirstMissing(keys[1..], names);
      assert r.Some? ==> exists i :: 1 <= i < |keys| && keys[i] == r.value && r.value !in names
                                     && forall h :: 0 <= h < i ==> keys[h] in names by {
        if r.Some? {
          var i :| 0 <= i < |keys[1..]| && keys[1..][i] == r.value && r.value !in names
                   && forall h :: 0 <= h < i ==> keys[1..][h] in names;
          assert keys[i + 1] == r.value;
          assert forall h :: 1 <= h < i + 1 ==> keys[h] == keys[1..][h - 1];
        }
      }
      r
  }

  /** `_check_inputs`: the method must be median or mean; then every key
      must be a column, the first one that is not being reported. */
  function CheckInputs(names: seq<string>, on: On, statistic: string): (r: Outcome)
    ensures statistic !in ValidMethods ==> r == Fail(InvalidMethod(statistic))
    ensures statistic in ValidMethods ==>
              (r == Pass <==> forall k :: k in KeyNames(on) ==> k in names)
    ensures statistic in ValidMethods && r.Fail? ==>
              exists i :: 0 <= i < |KeyNames(on)| && r == Fail(MissingColumn(KeyNames(on)[i]))
                          && KeyNames(on)[i] !in names
                          && forall h :: 0 <= h < i ==> KeyNames(on)[h] in names
  {
    if statistic !in ValidMethods then Fail(InvalidMethod(statistic))
    else match FirstMissing(KeyNames(on), names)
      case None => Pass
      case Some(k) => Fail(MissingColumn(k))
  }

  /** The `"sum"` branch of `aggregate` cannot be reached: `"sum"` is
      refused before grouping. */
  lemma SumRejected(names: seq<string>, on: On)
    ensures CheckInputs(names, on, "sum") == Fail(InvalidMethod("sum"))
  {
    assert "sum" != ValidMethods[0] && "sum" != ValidMethods[1];
  }

  // ---------------------------------------------------------------------
  // _check_featuredata

  /** Column `j` is checked for a numeric dtype: it is feature data and is
      not the key. Only a single-string key is exempt; the columns of a
      list key are checked like any other feature column. */
  predicate Checked(names: seq<string>, j: nat, on: On, marker: string, prefix: bool)
    requires j < |names|
  {
    !IsMetadata(names[j], marker, prefix) && !(on.Column? && names[j] == on.name)
  }

  predicate Offending(t: Table, j: nat, on: On, marker: string, prefix: bool)
    requires j < |t.names|
  {
    Checked(t.names, j, on, marker, prefix) && !t.numeric[j]
  }

  /** The offending columns among the first `n`, in column order. */
  function NonNumericUpTo(t: Table, on: On, marker: string, prefix: bool, n: nat): (bad: seq<string>)
    requires n <= |t.names|
    decreases n
  {
    if n == 0 then []
    else NonNumericUpTo(t, on, marker, prefix, n - 1)
         + (if Offending(t, n - 1, on, marker, prefix) then [t.names[n - 1]] else [])
  }

  /** Every checked column whose dtype is not numeric. */
  function NonNumericColumns(t: Table, on: On, marker: string, prefix: bool): seq<string> {
    NonNumericUpTo(t, on, marker, prefix, |t.names|)
  }

  lemma {:induction false} NonNumericUpToSpec(t: Table, on: On, marker: string, prefix: bool, n: nat, x: string)
    requires n <= |t.names|
    ensures x in NonNumericUpTo(t, on, marker, prefix, n) <==>
              exists j :: 0 <= j < n && Offending(t, j, on, marker, prefix) && t.names[j] == x
    decreases n
  {
    if n > 0 {
      NonNumericUpToSpec(t, on, marker, prefix, n - 1, x);
    }
  }

  /** The error lists every offending column, not only the first. */
  lemma NonNumericSpec(t: Table, on: On, marker: string, prefix: bool, x: string)
    ensures x in NonNumericColumns(t, on, marker, prefix) <==>
              exists j :: 0 <= j < |t.names| && Offending(t, j, on, marker, prefix) && t.names[j] == x
  {
    NonNumericUpToSpec(t, on, marker, prefix, |t.names|, x);
  }

  /** The quirk of the key exemption: a non-numeric feature column passes
      as a single-string key but is refused as a one-element list key. */
  lemma ListKeyNotExempt(t: Table, j: nat, marker: string, prefix: bool)
    requires j < |t.names| && !t.numeric[j] && !IsMetadata(t.names[j], marker, prefix)
    requires forall h :: 0 <= h < |t.names| && h != j ==> t.names[h] != t.names[j]
    ensures t.names[j] in NonNumericColumns(t, Columns([t.names[j]]), marker, prefix)
    ensures t.names[j] !in NonNumericColumns(t, Column(t.names[j]), marker, prefix)
  {
    NonNumericSpec(t, Columns([t.names[j]]), marker, prefix, t.names[j]);
    NonNumericSpec(t, Column(t.names[j]), marker, prefix, t.names[j]);
  }

  /** No column is left to check: numpy's `vectorize` then refuses the
      empty list of dtypes (it cannot infer an output type) and raises
      ValueError before any dtype is looked at. */
  predicate NoneChecked(names: seq<string>, on: On, marker: string, prefix: bool) {
    forall j :: 0 <= j < |names| ==> !Checked(names, j, on, marker, prefix)
  }

  /** `_check_featuredata`: walk the checked columns, collect every one
      whose dtype is not numeric, and fail with all of them; fail as numpy
      does when there is no column to check. */
  method CheckFeatureData(t: Table, on: On, marker: string, prefix: bool) returns (r: Outcome)
    ensures r == Fail(NothingToCheck) <==> NoneChecked(t.names, on, marker, prefix)
    ensures r == Pass <==> !NoneChecked(t.names, on, marker, prefix)
                           && forall j :: 0 <= j < |t.names| ==> !Offending(t, j, on, marker, prefix)
    ensures r.Fail? && !NoneChecked(t.names, on, marker, prefix) ==>
              r == Fail(NonNumericFeatures(NonNumericColumns(t, on, marker, prefix)))
  {
    var bad: seq<string> := [];
    var checked := false;
    var j := 0;
    while j < |t.names|
      invariant 0 <= j <= |t.names|
      invariant bad == NonNumericUpTo(t, on, marker, prefix, j)
      invariant |bad| == 0 <==> forall h :: 0 <= h < j ==> !Offending(t, h, on, marker, prefix)
      invariant !checked <==> forall h :: 0 <= h < j ==> !Checked(t.names, h, on, marker, prefix)
    {
      if Checked(t.names, j, on, marker, prefix) {
        checked := true;
        if !t.numeric[j] {
          bad := bad + [t.names[j]];
        }
      }
      j := j + 1;
    }
    if !checked {
      r := Fail(NothingToCheck);
    } else if |bad| == 0 {
      r := Pass;
    } else {
      r := Fail(NonNumericFeatures(bad));
    }
  }

  // ---------------------------------------------------------------------
  // Grouping

  /** A group key: the values of the key columns, in key order. */
  type Key = seq<Cell>

  predicate CharLess(a: char, b: char) {
    a < b
  }

  /** The order pandas sorts group keys in: numbers by value, strings by
      code points, and numbers before strings in a mixed column. */
  predicate CellLess(a: Cell, b: Cell) {
    match (a, b)
    case (Num(x), Num(y)) => x < y
    case (Num(_), Str(_)) => true
    case (Str(_), Num(_)) => false
    case (Str(s), Str(u)) => LexLess(CharLess, s, u)
  }

  /** Tuples of key values compare lexicographically. */
  predicate KeyLess(a: Key, b: Key) {
    LexLess(CellLess, a, b)
  }

  lemma CellOrder()
    ensures StrictTotalOrder(CellLess)
  {
    assert StrictTotalOrder(CharLess);
    forall a: Cell ensures !CellLess(a, a) {
      if a.Str? { LexIrreflexive(CharLess, a.s); }
    }
    forall a: Cell, b: Cell, c: Cell | CellLess(a, b) && CellLess(b, c) ensures CellLess(a, c) {
      if a.Str? && b.Str? && c.Str? { LexTransitive(CharLess, a.s, b.s, c.s); }
    }
    forall a: Cell, b: Cell ensures a == b || CellLess(a, b) || CellLess(b, a) {
      if a.Str? && b.Str? { LexTotal(CharLess, a.s, b.s); }
    }
  }

  /** Group keys are totally ordered, so sorting them is well defined. */
  lemma KeyOrder()
    ensures StrictTotalOrder(KeyLess)
  {
    CellOrder();
    forall a: Key ensures !KeyLess(a, a) {
      LexIrreflexive(CellLess, a);
    }
    forall a: Key, b: Key, c: Key | KeyLess(a, b) && KeyLess(b, c) ensures KeyLess(a, c) {
      LexTransitive(CellLess, a, b, c);
    }
    forall a: Key, b: Key ensures a == b || KeyLess(a, b) || KeyLess(b, a) {
      LexTotal(CellLess, a, b);
    }
  }

  /** The position of the first column called `x`. */
  function IndexOf(names: seq<string>, x: string): (j: nat)
    requires x in names
    ensures j < |names| && names[j] == x
    ensures forall h :: 0 <= h < j ==> names[h] != x
    decreases |names|
  {
    if names[0] == x then 0 else 1 + IndexOf(names[1..], x)
  }

  predicate AllColumns(keys: seq<string>, names: seq<string>) {
    forall k :: k in keys ==> k in names
  }

  /** The positions of the key columns. */
  function KeyColumns(names: seq<string>, keys: seq<string>): (idx: seq<nat>)
    requires AllColumns(keys, names)
    ensures |idx| == |keys|
    ensures forall i :: 0 <= i < |idx| ==> idx[i] < |names| && names[idx[i]] == keys[i]
  {
    seq(|keys|, i requires 0 <= i < |keys| => IndexOf(names, keys[i]))
  }

  predicate Below(idx: seq<nat>, width: nat) {
    forall i :: 0 <= i < |idx| ==> idx[i] < width
  }

  /** The key of one row. */
  function RowKey(row: seq<Cell>, idx: seq<nat>): (k: Key)
    requires Below(idx, |row|)
    ensures |k| == |idx| && forall i :: 0 <= i < |idx| ==> k[i] == row[idx[i]]
  {
    seq(|idx|, i requires 0 <= i < |idx| => row[idx[i]])
  }

  /** The key of every row, in row order. */
  function RowKeys(t: Table, idx: seq<nat>): (ks: seq<Key>)
    requires Below(idx, |t.names|)
    ensures |ks| == |t.rows| && forall p :: 0 <= p < |t.rows| ==> ks[p] == RowKey(t.rows[p], idx)
  {
    seq(|t.rows|, p requires 0 <= p < |t.rows| => RowKey(t.rows[p], idx))
  }

  /** The rows of the group with key `k`: every position holding `k`, in
      row order. */
  function Positions(keys: seq<Key>, k: Key): (ps: seq<nat>)
    ensures forall m :: 0 <= m < |ps| ==> ps[m] < |keys| && keys[ps[m]] == k
    ensures forall p :: 0 <= p < |keys| && keys[p] == k ==> p in ps
    ensures forall m, n :: 0 <= m < n < |ps| ==> ps[m] < ps[n]
    ensures k in keys ==> |ps| > 0
    decreases |keys|
  {
    if |keys| == 0 then []
    else
      assert k in keys && keys[|keys| - 1] != k ==> k in keys[..|keys| - 1];
      var init := Positions(keys[..|keys| - 1], k);
      init + (if keys[|keys| - 1] == k then [|keys| - 1] else [])
  }

  /** The first row of a group is the first row holding its key. */
  lemma PositionsFirst(keys: seq<Key>, k: Key)
    requires k in keys
    ensures |Positions(keys, k)| > 0
    ensures forall p :: 0 <= p < Positions(keys, k)[0] ==> keys[p] != k
  {
    var ps := Positions(keys, k);
    forall p | 0 <= p < ps[0] ensures keys[p] != k {
      assert forall m :: 0 <= m < |ps| ==> ps[m] != p;
      assert p !in ps;
    }
  }

  /** The values of numeric column `j` over the rows at `ps`. */
  function ColumnValues(t: Table, ps: seq<nat>, j: nat): (xs: seq<real>)
    requires j < |t.names| && forall m :: 0 <= m < |ps| ==> ps[m] < |t.rows|
    ensures |xs| == |ps|
  {
    seq(|ps|, m requires 0 <= m < |ps| => Value(t.rows[ps[m]][j]))
  }

  // ---------------------------------------------------------------------
  // aggregate

  /** Column `j` is carried over from the group's first row rather than
      reduced: it is metadata (`drop_duplicates` keeps the first row and the
      outer merge prefers its copy) or one of the keys. */
  predicate Kept(names: seq<string>, j: nat, on: On, marker: string, prefix: bool)
    requires j < |names|
  {
    IsMetadata(names[j], marker, prefix) || names[j] in KeyNames(on)
  }

  /** The output row of the group with key `k`. */
  function GroupRow(t: Table, keys: seq<Key>, k: Key, on: On, reducer: Reducer, marker: string, prefix: bool)
    : (row: seq<Cell>)
    requires |keys| == |t.rows| && k in keys
    ensures |row| == |t.names|
  {
    var ps := Positions(keys, k);
    PositionsFirst(keys, k);
    seq(|t.names|, j requires 0 <= j < |t.names| =>
      if Kept(t.names, j, on, marker, prefix) then t.rows[ps[0]][j]
      else Num(Reduce(reducer, ColumnValues(t, ps, j))))
  }

  /** The grouped table: one row per distinct key, in ascending key order. */
  function Grouped(t: Table, on: On, reducer: Reducer, marker: string, prefix: bool): (out: Table)
    requires AllColumns(KeyNames(on), t.names)
    requires forall j :: 0 <= j < |t.names| ==> !Offending(t, j, on, marker, prefix)
    ensures out.names == t.names && out.numeric == t.numeric
  {
    var idx := KeyColumns(t.names, KeyNames(on));
    var keys := RowKeys(t, idx);
    var groups := SortDistinct(KeyLess, keys);
    KeyOrder();
    SortDistinctSpec(KeyLess, keys);
    assert forall i :: 0 <= i < |groups| ==> groups[i] in Elems(groups);
    GroupedWellFormed(t, on, reducer, marker, prefix, keys, groups);
    Grid(t.names, t.numeric,
         seq(|groups|, i requires 0 <= i < |groups| => GroupRow(t, keys, groups[i], on, reducer, marker, prefix)))
  }

  /** A reduced column is numeric, so the reduction sees only numbers. */
  lemma ReducedNumeric(t: Table, j: nat, on: On, marker: string, prefix: bool)
    requires j < |t.names| && !Kept(t.names, j, on, marker, prefix)
    requires !Offending(t, j, on, marker, prefix)
    ensures t.numeric[j]
  {
    if on.Column? {
      assert KeyNames(on) == [on.name];
    }
  }

  lemma GroupedWellFormed(t: Table, on: On, reducer: Reducer, marker: string, prefix: bool,
                          keys: seq<Key>, groups: seq<Key>)
    requires |keys| == |t.rows|
    requires forall i :: 0 <= i < |groups| ==> groups[i] in keys
    ensures WellFormed(Grid(t.names, t.numeric,
              seq(|groups|, i requires 0 <= i < |groups| => GroupRow(t, keys, groups[i], on, reducer, marker, prefix))))
  {
    var rows: seq<seq<Cell>> :=
      seq(|groups|, i requires 0 <= i < |groups| => GroupRow(t, keys, groups[i], on, reducer, marker, prefix));
    forall i, j | 0 <= i < |rows| && 0 <= j < |t.names| && t.numeric[j] ensures rows[i][j].Num? {
      var ps := Positions(keys, groups[i]);
      PositionsFirst(keys, groups[i]);
      assert ps[0] < |t.rows|;
    }
  }

  /** `aggregate(data, on, method, metadata_string=marker, prefix=prefix)`:
      check the arguments, then the feature dtypes, then group. Grouping by
      an empty list of keys fails in pandas. */
  function Aggregation(t: Table, on: On, statistic: string, marker: string, prefix: bool): (r: Result<Table>)
    ensures r.Ok? ==> statistic in ValidMethods
    ensures r.Ok? ==> r.value.names == t.names && r.value.numeric == t.numeric
  {
    match CheckInputs(t.names, on, statistic)
    case Fail(e) => Err(e)
    case Pass =>
      var bad := NonNumericColumns(t, on, marker, prefix);
      if NoneChecked(t.names, on, marker, prefix) then Err(NothingToCheck)
      else if |bad| > 0 then Err(NonNumericFeatures(bad))
      else if |KeyNames(on)| == 0 then Err(NoGroupKeys)
      else
        NoOffending(t, on, marker, prefix);
        Ok(Grouped(t, on, ReducerOf(statistic).value, marker, prefix))
  }

  /** The check passes exactly when no checked column is non-numeric. */
  lemma NoOffending(t: Table, on: On, marker: string, prefix: bool)
    ensures |NonNumericColumns(t, on, marker, prefix)| == 0 <==>
              forall j :: 0 <= j < |t.names| ==> !Offending(t, j, on, marker, prefix)
  {
    var bad := NonNumericColumns(t, on, marker, prefix);
    forall j | 0 <= j < |t.names| ensures Offending(t, j, on, marker, prefix) ==> t.names[j] in bad {
      NonNumericSpec(t, on, marker, prefix, t.names[j]);
    }
    if |bad| > 0 {
      NonNumericSpec(t, on, marker, prefix, bad[0]);
    }
  }

  /** The key columns of a group's row hold the group's key. */
  lemma GroupRowKey(t: Table, on: On, reducer: Reducer, marker: string, prefix: bool, k: Key)
    requires AllColumns(KeyNames(on), t.names)
    requires k in RowKeys(t, KeyColumns(t.names, KeyNames(on)))
    ensures RowKey(GroupRow(t, RowKeys(t, KeyColumns(t.names, KeyNames(on))), k, on, reducer, marker, prefix),
                   KeyColumns(t.names, KeyNames(on))) == k
  {
    var idx := KeyColumns(t.names, KeyNames(on));
    var keys := RowKeys(t, idx);
    var row := GroupRow(t, keys, k, on, reducer, marker, prefix);
    var ps := Positions(keys, k);
    PositionsFirst(keys, k);
    forall i | 0 <= i < |idx| ensures row[idx[i]] == k[i] {
      assert t.names[idx[i]] in KeyNames(on);
      assert row[idx[i]] == t.rows[ps[0]][idx[i]];
      assert keys[ps[0]] == RowKey(t.rows[ps[0]], idx);
    }
  }

  /** The output rows' keys are the sorted distinct keys of the input. */
  lemma GroupedKeys(t: Table, on: On, reducer: Reducer, marker: string, prefix: bool)
    requires AllColumns(KeyNames(on), t.names)
    requires forall j :: 0 <= j < |t.names| ==> !Offending(t, j, on, marker, prefix)
    ensures RowKeys(Grouped(t, on, reducer, marker, prefix), KeyColumns(t.names, KeyNames(on)))
            == SortDistinct(KeyLess, RowKeys(t, KeyColumns(t.names, KeyNames(on))))
  {
    var idx := KeyColumns(t.names, KeyNames(on));
    var keys := RowKeys(t, idx);
    var groups := SortDistinct(KeyLess, keys);
    var out := Grouped(t, on, reducer, marker, prefix);
    KeyOrder();
    SortDistinctSpec(KeyLess, keys);
    forall i | 0 <= i < |groups| ensures RowKey(out.rows[i], idx) == groups[i] {
      assert groups[i] in Elems(groups);
      GroupRowKey(t, on, reducer, marker, prefix, groups[i]);
    }
  }

  /** A successful aggregation is the grouped table. */
  lemma AggregationIsGrouped(t: Table, on: On, statistic: string, marker: string, prefix: bool)
    requires Aggregation(t, on, statistic, marker, prefix).Ok?
    ensures AllColumns(KeyNames(on), t.names) && statistic in ValidMethods
    ensures forall j :: 0 <= j < |t.names| ==> !Offending(t, j, on, marker, prefix)
    ensures ReducerOf(statistic).Some?
    ensures Aggregation(t, on, statistic, marker, prefix).value
            == Grouped(t, on, ReducerOf(statistic).value, marker, prefix)
  {
    NoOffending(t, on, marker, prefix);
  }

  /** `aggregate` returns one row per distinct key, in strictly ascending
      key order, and the keys it returns are exactly those of the input. */
  lemma AggregateGroups(t: Table, on: On, statistic: string, marker: string, prefix: bool, out: Table)
    requires Aggregation(t, on, statistic, marker, prefix) == Ok(out)
    ensures AllColumns(KeyNames(on), t.names)
    ensures var idx := KeyColumns(t.names, KeyNames(on));
            && StrictlySorted(KeyLess, RowKeys(out, idx))
            && Elems(RowKeys(out, idx)) == Elems(RowKeys(t, idx))
            && |out.rows| == |Elems(RowKeys(t, idx))|
  {
    AggregationIsGrouped(t, on, statistic, marker, prefix);
    assert out == Grouped(t, on, ReducerOf(statistic).value, marker, prefix);
    var idx := KeyColumns(t.names, KeyNames(on));
    KeyOrder();
    SortDistinctSpec(KeyLess, RowKeys(t, idx));
    GroupedKeys(t, on, ReducerOf(statistic).value, marker, prefix);
  }

  /** What each output cell holds. Let `k` be the key of output row `i`:
      `k` occurs in the input; a metadata or key column holds the value of
      the first input row with key `k`; any other column is numeric and
      holds the median (or mean) of that column over every input row with
      key `k`. */
  lemma AggregateCells(t: Table, on: On, statistic: string, marker: string, prefix: bool, out: Table, i: nat, j: nat)
    requires Aggregation(t, on, statistic, marker, prefix) == Ok(out)
    requires i < |out.rows| && j < |t.names|
    ensures AllColumns(KeyNames(on), t.names)
    ensures var idx := KeyColumns(t.names, KeyNames(on));
            var keys := RowKeys(t, idx);
            var k := RowKey(out.rows[i], idx);
            && k in keys
            && (Kept(t.names, j, on, marker, prefix) ==>
                  exists p :: 0 <= p < |t.rows| && keys[p] == k && (forall q :: 0 <= q < p ==> keys[q] != k)
                              && out.rows[i][j] == t.rows[p][j])
            && (!Kept(t.names, j, on, marker, prefix) ==>
                  && t.numeric[j]
                  && (statistic == "median" ==> out.rows[i][j] == Num(Median(ColumnValues(t, Positions(keys, k), j))))
                  && (statistic == "mean" ==> out.rows[i][j] == Num(Mean(ColumnValues(t, Positions(keys, k), j)))))
  {
    AggregationIsGrouped(t, on, statistic, marker, prefix);
    GroupedCells(t, on, ReducerOf(statistic).value, marker, prefix, i, j);
  }

  lemma GroupedCells(t: Table, on: On, reducer: Reducer, marker: string, prefix: bool, i: nat, j: nat)
    requires AllColumns(KeyNames(on), t.names)
    requires forall h :: 0 <= h < |t.names| ==> !Offending(t, h, on, marker, prefix)
    requires i < |Grouped(t, on, reducer, marker, prefix).rows| && j < |t.names|
    ensures var idx := KeyColumns(t.names, KeyNames(on));
            var keys := RowKeys(t, idx);
            var out := Grouped(t, on, reducer, marker, prefix);
            var k := RowKey(out.rows[i], idx);
            && k in keys
            && (Kept(t.names, j, on, marker, prefix) ==>
                  exists p :: 0 <= p < |t.rows| && keys[p] == k && (forall q :: 0 <= q < p ==> keys[q] != k)
                              && out.rows[i][j] == t.rows[p][j])
            && (!Kept(t.names, j, on, marker, prefix) ==>
                  t.numeric[j] && out.rows[i][j] == Num(Reduce(reducer, ColumnValues(t, Positions(keys, k), j))))
  {
    var idx := KeyColumns(t.names, KeyNames(on));
    var keys := RowKeys(t, idx);
    var out := Grouped(t, on, reducer, marker, prefix);
    GroupedRowOfKey(t, on, reducer, marker, prefix, i);
    GroupRowCell(t, keys, RowKey(out.rows[i], idx), on, reducer, marker, prefix, j);
  }

  /** Output row `i` of the grouped table is the row built for its own key,
      which occurs in the input. */
  lemma GroupedRowOfKey(t: Table, on: On, reducer: Reducer, marker: string, prefix: bool, i: nat)
    requires AllColumns(KeyNames(on), t.names)
    requires forall h :: 0 <= h < |t.names| ==> !Offending(t, h, on, marker, prefix)
    requires i < |Grouped(t, on, reducer, marker, prefix).rows|
    ensures var idx := KeyColumns(t.names, KeyNames(on));
            var keys := RowKeys(t, idx);
            var out := Grouped(t, on, reducer, marker, prefix);
            var k := RowKey(out.rows[i], idx);
            && k in keys
            && out.rows[i] == GroupRow(t, keys, k, on, reducer, marker, prefix)
  {
    var idx := KeyColumns(t.names, KeyNames(on));
    var keys := RowKeys(t, idx);
    var groups := SortDistinct(KeyLess, keys);
    var out := Grouped(t, on, reducer, marker, prefix);
    KeyOrder();
    SortDistinctSpec(KeyLess, keys);
    GroupedKeys(t, on, reducer, marker, prefix);
    assert RowKey(out.rows[i], idx) == groups[i];
    assert groups[i] in Elems(groups);
    assert out.rows[i] == GroupRow(t, keys, groups[i], on, reducer, marker, prefix);
  }

  lemma GroupRowCell(t: Table, keys: seq<Key>, k: Key, on: On, reducer: Reducer, marker: string, prefix: bool, j: nat)
    requires |keys| == |t.rows| && k in keys && j < |t.names|
    requires forall h :: 0 <= h < |t.names| ==> !Offending(t, h, on, marker, prefix)
    ensures Kept(t.names, j, on, marker, prefix) ==>
              exists p :: 0 <= p < |t.rows| && keys[p] == k && (forall q :: 0 <= q < p ==> keys[q] != k)
                          && GroupRow(t, keys, k, on, reducer, marker, prefix)[j] == t.rows[p][j]
    ensures !Kept(t.names, j, on, marker, prefix) ==>
              && t.numeric[j]
              && GroupRow(t, keys, k, on, reducer, marker, prefix)[j]
                 == Num(Reduce(reducer, ColumnValues(t, Positions(keys, k), j)))
  {
    PositionsFirst(keys, k);
    if !Kept(t.names, j, on, marker, prefix) {
      ReducedNumeric(t, j, on, marker, prefix);
    }
  }

  /** A key held by a single input row yields that row unchanged. */
  lemma AggregateSingleRowGroup(t: Table, on: On, statistic: string, marker: string, prefix: bool,
                                out: Table, i: nat, p: nat)
    requires Aggregation(t, on, statistic, marker, prefix) == Ok(out)
    requires i < |out.rows| && p < |t.rows|
    requires AllColumns(KeyNames(on), t.names)
    requires var idx := KeyColumns(t.names, KeyNames(on));
             var keys := RowKeys(t, idx);
             && keys[p] == RowKey(out.rows[i], idx)
             && forall q :: 0 <= q < |t.rows| && q != p ==> keys[q] != keys[p]
    ensures out.rows[i] == t.rows[p]
  {
    AggregationIsGrouped(t, on, statistic, marker, prefix);
    GroupedSingleRow(t, on, ReducerOf(statistic).value, marker, prefix, i, p);
  }

  /** In the grouped table, the row of a key held by one input row is that row. */
  lemma GroupedSingleRow(t: Table, on: On, reducer: Reducer, marker: string, prefix: bool, i: nat, p: nat)
    requires AllColumns(KeyNames(on), t.names)
    requires forall h :: 0 <= h < |t.names| ==> !Offending(t, h, on, marker, prefix)
    requires i < |Grouped(t, on, reducer, marker, prefix).rows| && p < |t.rows|
    requires var idx := KeyColumns(t.names, KeyNames(on));
             var keys := RowKeys(t, idx);
             && keys[p] == RowKey(Grouped(t, on, reducer, marker, prefix).rows[i], idx)
             && forall q :: 0 <= q < |t.rows| && q != p ==> keys[q] != keys[p]
    ensures Grouped(t, on, reducer, marker, prefix).rows[i] == t.rows[p]
  {
    var idx := KeyColumns(t.names, KeyNames(on));
    var keys := RowKeys(t, idx);
    GroupedRowOfKey(t, on, reducer, marker, prefix, i);
    var row := GroupRow(t, keys, keys[p], on, reducer, marker, prefix);
    assert Grouped(t, on, reducer, marker, prefix).rows[i] == row;
    forall j | 0 <= j < |t.names| ensures row[j] == t.rows[p][j] {
      GroupRowSingle(t, keys, p, on, reducer, marker, prefix, j);
    }
    assert |row| == |t.rows[p]|;
    CellsEqual(row, t.rows[p]);
  }

  lemma CellsEqual(a: seq<Cell>, b: seq<Cell>)
    requires |a| == |b| && forall j :: 0 <= j < |a| ==> a[j] == b[j]
    ensures a == b
  {
  }

  /** The row of a group holding a single input row is that row: a reduction
      of one value is the value. */
  lemma GroupRowSingle(t: Table, keys: seq<Key>, p: nat, on: On, reducer: Reducer, marker: string, prefix: bool,
                       j: nat)
    requires |keys| == |t.rows| && p < |keys| && j < |t.names|
    requires forall q :: 0 <= q < |keys| && q != p ==> keys[q] != keys[p]
    requires forall h :: 0 <= h < |t.names| ==> !Offending(t, h, on, marker, prefix)
    ensures GroupRow(t, keys, keys[p], on, reducer, marker, prefix)[j] == t.rows[p][j]
  {
    PositionsSingle(keys, p);
    if !Kept(t.names, j, on, marker, prefix) {
      ReducedNumeric(t, j, on, marker, prefix);
      var x := t.rows[p][j].x;
      assert ColumnValues(t, [p], j) == [x];
      ReduceOfOne(reducer, x);
    }
  }

  /** A key held by one row only has that row as its group. */
  lemma {:induction false} PositionsSingle(keys: seq<Key>, p: nat)
    requires p < |keys|
    requires forall q :: 0 <= q < |keys| && q != p ==> keys[q] != keys[p]
    ensures Positions(keys, keys[p]) == [p]
    decreases |keys|
  {
    var n := |keys|;
    var init := keys[..n - 1];
    if p == n - 1 {
      assert forall q :: 0 <= q < |init| ==> init[q] != keys[p];
      PositionsAbsent(init, keys[p]);
    } else {
      assert init[p] == keys[p];
      PositionsSingle(init, p);
    }
  }

  lemma {:induction false} PositionsAbsent(keys: seq<Key>, k: Key)
    requires k !in keys
    ensures Positions(keys, k) == []
    decreases |keys|
  {
    if |keys| > 0 {
      PositionsAbsent(keys[..|keys| - 1], k);
    }
  }

  /** `aggregate` fails exactly when the method is not median or mean, a key
      is not a column, no column is left to check, a checked column is not
      numeric, or there is no key. */
  lemma AggregateFails(t: Table, on: On, statistic: string, marker: string, prefix: bool)
    ensures Aggregation(t, on, statistic, marker, prefix).Err? <==>
              || statistic !in ValidMethods
              || !AllColumns(KeyNames(on), t.names)
              || NoneChecked(t.names, on, marker, prefix)
              || (exists j :: 0 <= j < |t.names| && Offending(t, j, on, marker, prefix))
              || |KeyNames(on)| == 0
  {
    NoOffending(t, on, marker, prefix);
  }

  /** A table whose only non-metadata column is the string key leaves
      nothing to check, and `aggregate` fails as numpy does. */
  lemma KeyOnlyFeatureFails()
    ensures var t: Table := Grid(["Image_ImageNumber", "Metadata_Well"], [true, false], []);
            Aggregation(t, Column("Image_ImageNumber"), "median", DefaultMarker, false) == Err(NothingToCheck)
  {
    var names := ["Image_ImageNumber", "Metadata_Well"];
    assert StartsWith(names[1], DefaultMarker);
    assert IsMetadata(names[1], DefaultMarker, false);
    assert NoneChecked(names, Column("Image_ImageNumber"), DefaultMarker, false);
  }

  /** `aggregate` as the Python code runs it, step by step. */
  method Aggregate(t: Table, on: On, statistic: string, marker: string, prefix: bool) returns (r: Result<Table>)
    ensures r == Aggregation(t, on, statistic, marker, prefix)
  {
    var inputs := CheckInputs(t.names, on, statistic);
    if inputs.Fail? {
      return Err(inputs.error);
    }
    var features := CheckFeatureData(t, on, marker, prefix);
    NoOffending(t, on, marker, prefix);
    if features.Fail? {
      assert features == Fail(NothingToCheck) || !NoneChecked(t.names, on, marker, prefix);
      return Err(features.error);
    }
    if |KeyNames(on)| == 0 {
      return Err(NoGroupKeys);
    }
    var reducer := ReducerOf(statistic).value;
    r := Ok(Grouped(t, on, reducer, marker, prefix));
  }
}
