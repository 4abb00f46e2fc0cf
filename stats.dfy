/** The reductions `aggregate` applies to each feature column of a group:
    `np.median`, `np.mean` and `np.sum`, over mathematical reals. */
module Stats {

  import opened Errors

  function Sum(xs: seq<real>): real
    decreases |xs|
  {
    if |xs| == 0 then 0.0 else xs[0] + Sum(xs[1..])
  }

  /** `np.mean` */
  function Mean(xs: seq<real>): real
    requires |xs| > 0
  {
    Sum(xs) / (|xs| as real)
  }

  ghost predicate Sorted(s: seq<real>) {
    forall i, j :: 0 <= i < j < |s| ==> s[i] <= s[j]
  }

  function Insert(x: real, s: seq<real>): seq<real>
    decreases |s|
  {
    if |s| == 0 || x <= s[0] then [x] + s else [s[0]] + Insert(x, s[1..])
  }

  /** The values of `xs` in ascending order. */
  function SortReals(xs: seq<real>): seq<real>
    decreases |xs|
  {
    if |xs| == 0 then [] else Insert(xs[0], SortReals(xs[1..]))
  }

  /** `np.median`: the middle value of the sorted values, or the average of
      the two middle values when there is an even number of them. */
  function Median(xs: seq<real>): real
    requires |xs| > 0
  {
    var s := SortReals(xs);
    SortedLength(xs);
    var n := |s|;
    if n % 2 == 1 then s[n / 2] else (s[n / 2 - 1] + s[n / 2]) / 2.0
  }

  /** The numpy reductions `aggregate` can apply to a group's column. */
  datatype Reducer = MedianOf | MeanOf | SumOf

  /** The reducer `aggregate` selects for its `method` argument. */
  function ReducerOf(statistic: string): (r: Option<Reducer>)
    ensures r == Some(MedianOf) <==> statistic == "median"
    ensures r == Some(MeanOf) <==> statistic == "mean"
    ensures r == Some(SumOf) <==> statistic == "sum"
  {
    if statistic == "mean" then Some(MeanOf)
    else if statistic == "median" then Some(MedianOf)
    else if statistic == "sum" then Some(SumOf)
    else None
  }

  function Reduce(reducer: Reducer, xs: seq<real>): real
    requires |xs| > 0
  {
    match reducer
    case MeanOf => Mean(xs)
    case MedianOf => Median(xs)
    case SumOf => Sum(xs)
  }

  /** Inserting into an ascending list keeps it ascending; the head is the
      smaller of the value and the old head. */
  lemma {:induction false} InsertSorted(x: real, s: seq<real>)
    requires Sorted(s)
    ensures |Insert(x, s)| > 0 && Sorted(Insert(x, s))
    ensures Insert(x, s)[0] == if |s| == 0 || x <= s[0] then x else s[0]
    decreases |s|
  {
    if |s| == 0 || x <= s[0] {
      assert Insert(x, s) == [x] + s;
      SortedCons(x, s);
    } else {
      var t := Insert(x, s[1..]);
      assert Insert(x, s) == [s[0]] + t;
      SortedTail(s);
      InsertSorted(x, s[1..]);
      assert |s| > 1 ==> s[0] <= s[1];
      SortedCons(s[0], t);
    }
  }

  /** Inserting adds exactly the value. */
  lemma {:induction false} InsertMultiset(x: real, s: seq<real>)
    ensures multiset(Insert(x, s)) == multiset(s) + multiset{x}
    decreases |s|
  {
    if |s| == 0 || x <= s[0] {
      assert Insert(x, s) == [x] + s;
    } else {
      var t := Insert(x, s[1..]);
      assert Insert(x, s) == [s[0]] + t;
      InsertMultiset(x, s[1..]);
      assert s == [s[0]] + s[1..];
    }
  }

  /** A value no greater than the head of an ascending list extends it. */
  lemma SortedCons(x: real, t: seq<real>)
    requires Sorted(t)
    requires |t| > 0 ==> x <= t[0]
    ensures Sorted([x] + t)
  {
  }

  /** Sorting yields an ascending permutation of the values. */
  lemma {:induction false} SortSpec(xs: seq<real>)
    ensures Sorted(SortReals(xs))
    ensures multiset(SortReals(xs)) == multiset(xs)
    decreases |xs|
  {
    if |xs| > 0 {
      SortSpec(xs[1..]);
      InsertSorted(xs[0], SortReals(xs[1..]));
      InsertMultiset(xs[0], SortReals(xs[1..]));
      assert xs == [xs[0]] + xs[1..];
    }
  }

  lemma SortedLength(xs: seq<real>)
    ensures |SortReals(xs)| == |xs|
  {
    SortSpec(xs);
    assert |multiset(SortReals(xs))| == |multiset(xs)|;
  }

  /** The first value of an ascending list is its least. */
  lemma SortedHead(a: seq<real>, x: real)
    requires Sorted(a) && x in multiset(a)
    ensures |a| > 0 && a[0] <= x
  {
    var j :| 0 <= j < |a| && a[j] == x;
  }

  lemma SortedTail(a: seq<real>)
    requires |a| > 0 && Sorted(a)
    ensures Sorted(a[1..])
    ensures multiset(a[1..]) == multiset(a) - multiset{a[0]}
  {
    assert a == [a[0]] + a[1..];
  }

  /** Two ascending lists with the same values are equal: the sorted order
      of a group does not depend on the order of its rows. */
  lemma {:induction false} SortedUnique(a: seq<real>, b: seq<real>)
    requires Sorted(a) && Sorted(b) && multiset(a) == multiset(b)
    ensures a == b
    decreases |a|
  {
    if |a| > 0 {
      assert a[0] in multiset(b);
      SortedHead(b, a[0]);
      SortedHead(a, b[0]);
      assert a[0] == b[0];
      SortedTail(a);
      SortedTail(b);
      assert multiset(a[1..]) == multiset(b[1..]);
      SortedUnique(a[1..], b[1..]);
    } else {
      assert |multiset(b)| == 0;
    }
  }

  /** The median depends only on the values, not on their order. */
  lemma MedianPermutation(xs: seq<real>, ys: seq<real>)
    requires |xs| > 0 && multiset(xs) == multiset(ys)
    ensures |ys| > 0 && Median(xs) == Median(ys)
  {
    assert |xs| == |multiset(xs)| == |multiset(ys)| == |ys|;
    SortSpec(xs);
    SortSpec(ys);
    SortedUnique(SortReals(xs), SortReals(ys));
  }

  lemma MeanOfOne(x: real)
    ensures Mean([x]) == x
  {
    assert [x][1..] == [];
    assert Sum([]) == 0.0;
    assert Sum([x]) == x;
  }

  lemma MedianOfOne(x: real)
    ensures Median([x]) == x
  {
    assert [x][1..] == [];
    assert SortReals([]) == [];
    assert Insert(x, []) == [x];
    assert SortReals([x]) == [x];
  }

  /** Every reduction of a single value is that value. */
  lemma ReduceOfOne(reducer: Reducer, x: real)
    ensures Reduce(reducer, [x]) == x
  {
    MeanOfOne(x);
    MedianOfOne(x);
  }

  /** The median lies between any bounds of the values. */
  lemma MedianBounds(xs: seq<real>, lo: real, hi: real)
    requires |xs| > 0
    requires forall i :: 0 <= i < |xs| ==> lo <= xs[i] <= hi
    ensures lo <= Median(xs) <= hi
  {
    var s := SortReals(xs);
    SortSpec(xs);
    SortedLength(xs);
    forall k | 0 <= k < |s| ensures lo <= s[k] <= hi {
      assert s[k] in multiset(xs);
    }
  }

  /** The median of two values is their average. */
  lemma MedianOfTwo(a: real, b: real)
    ensures Median([a, b]) == (a + b) / 2.0
  {
    assert [a, b][1..] == [b] && [b][1..] == [];
    assert SortReals([b]) == Insert(b, []) == [b];
    assert SortReals([a, b]) == Insert(a, [b]);
    assert Insert(a, [b]) == if a <= b then [a, b] else [b, a];
  }

  lemma {:induction false} SumBounds(xs: seq<real>, lo: real, hi: real)
    requires forall i :: 0 <= i < |xs| ==> lo <= xs[i] <= hi
    ensures (|xs| as real) * lo <= Sum(xs) <= (|xs| as real) * hi
    decreases |xs|
  {
    if |xs| > 0 {
      SumBounds(xs[1..], lo, hi);
    }
  }

  /** The mean lies between any bounds of the values. */
  lemma MeanBounds(xs: seq<real>, lo: real, hi: real)
    requires |xs| > 0
    requires forall i :: 0 <= i < |xs| ==> lo <= xs[i] <= hi
    ensures lo <= Mean(xs) <= hi
  {
    SumBounds(xs, lo, hi);
    var n := |xs| as real;
    assert lo == (n * lo) / n && hi == (n * hi) / n;
  }
}
