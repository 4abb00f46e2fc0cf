/** Orders used by the aggregation: the lexicographic extension of an order
    on elements (how Python compares strings and tuples), and the sorted list
    of distinct values that grouping produces. */
module Order {

  /** `less` is irreflexive, transitive and relates any two distinct values. */
  ghost predicate StrictTotalOrder<T(!new)>(less: (T, T) -> bool) {
    && (forall a :: !less(a, a))
    && (forall a, b, c :: less(a, b) && less(b, c) ==> less(a, c))
    && (forall a, b :: a == b || less(a, b) || less(b, a))
  }

  /** Lexicographic order: the first differing element decides, and a proper
      prefix comes first. */
  predicate LexLess<T(==,!new)>(less: (T, T) -> bool, a: seq<T>, b: seq<T>)
    decreases |a|
  {
    if |a| == 0 then |b| > 0
    else if |b| == 0 then false
    else if a[0] != b[0] then less(a[0], b[0])
    else LexLess(less, a[1..], b[1..])
  }

  lemma {:induction false} LexIrreflexive<T(!new)>(less: (T, T) -> bool, a: seq<T>)
    requires StrictTotalOrder(less)
    ensures !LexLess(less, a, a)
    decreases |a|
  {
    if |a| > 0 {
      LexIrreflexive(less, a[1..]);
    }
  }

  lemma {:induction false} LexTransitive<T(!new)>(less: (T, T) -> bool, a: seq<T>, b: seq<T>, c: seq<T>)
    requires StrictTotalOrder(less)
    requires LexLess(less, a, b) && LexLess(less, b, c)
    ensures LexLess(less, a, c)
    decreases |a|
  {
    if |a| > 0 && a[0] == b[0] && b[0] == c[0] {
      LexTransitive(less, a[1..], b[1..], c[1..]);
    }
  }

  lemma {:induction false} LexTotal<T(!new)>(less: (T, T) -> bool, a: seq<T>, b: seq<T>)
    requires StrictTotalOrder(less)
    ensures a == b || LexLess(less, a, b) || LexLess(less, b, a)
    decreases |a|
  {
    if |a| > 0 && |b| > 0 && a[0] == b[0] {
      LexTotal(less, a[1..], b[1..]);
      if a[1..] == b[1..] {
        assert a == [a[0]] + a[1..] && b == [b[0]] + b[1..];
      }
    }
  }

  /** The lexicographic extension of a strict total order is one. */
  lemma LexStrictTotalOrder<T(!new)>(less: (T, T) -> bool)
    requires StrictTotalOrder(less)
    ensures StrictTotalOrder((a: seq<T>, b: seq<T>) => LexLess(less, a, b))
  {
    forall a: seq<T> ensures !LexLess(less, a, a) {
      LexIrreflexive(less, a);
    }
    forall a: seq<T>, b: seq<T>, c: seq<T> | LexLess(less, a, b) && LexLess(less, b, c)
      ensures LexLess(less, a, c)
    {
      LexTransitive(less, a, b, c);
    }
    forall a: seq<T>, b: seq<T> ensures a == b || LexLess(less, a, b) || LexLess(less, b, a) {
      LexTotal(less, a, b);
    }
  }

  ghost predicate StrictlySorted<T>(less: (T, T) -> bool, s: seq<T>) {
    forall i, j :: 0 <= i < j < |s| ==> less(s[i], s[j])
  }

  function Elems<T>(s: seq<T>): set<T> {
    set x | x in s
  }

  /** Insert `x` into a strictly sorted list unless it is already there. */
  function InsertDistinct<T(==,!new)>(less: (T, T) -> bool, x: T, s: seq<T>): seq<T>
    decreases |s|
  {
    if |s| == 0 then [x]
    else if x == s[0] then s
    else if less(x, s[0]) then [x] + s
    else [s[0]] + InsertDistinct(less, x, s[1..])
  }

  /** The distinct values of `xs` in ascending order. */
  function SortDistinct<T(==,!new)>(less: (T, T) -> bool, xs: seq<T>): seq<T>
    decreases |xs|
  {
    if |xs| == 0 then []
    else InsertDistinct(less, xs[|xs| - 1], SortDistinct(less, xs[..|xs| - 1]))
  }

  /** Inserting into a strictly ascending list keeps it so; the head is the
      smaller of the value and the old head. */
  lemma {:induction false} InsertDistinctSorted<T(!new)>(less: (T, T) -> bool, x: T, s: seq<T>)
    requires StrictTotalOrder(less) && StrictlySorted(less, s)
    ensures |InsertDistinct(less, x, s)| > 0 && StrictlySorted(less, InsertDistinct(less, x, s))
    ensures InsertDistinct(less, x, s)[0] == if |s| == 0 || less(x, s[0]) then x else s[0]
    decreases |s|
  {
    if |s| == 0 {
    } else if x == s[0] {
    } else if less(x, s[0]) {
      assert InsertDistinct(less, x, s) == [x] + s;
      StrictlySortedCons(less, x, s);
    } else {
      var t := InsertDistinct(less, x, s[1..]);
      assert InsertDistinct(less, x, s) == [s[0]] + t;
      assert StrictlySorted(less, s[1..]);
      InsertDistinctSorted(less, x, s[1..]);
      assert less(s[0], t[0]) by {
        assert |s| > 1 ==> less(s[0], s[1]);
      }
      StrictlySortedCons(less, s[0], t);
    }
  }

  /** A value below the head of a strictly ascending list extends it. */
  lemma StrictlySortedCons<T(!new)>(less: (T, T) -> bool, x: T, t: seq<T>)
    requires StrictTotalOrder(less) && StrictlySorted(less, t)
    requires |t| > 0 ==> less(x, t[0])
    ensures StrictlySorted(less, [x] + t)
  {
    forall j | 1 <= j < |t| ensures less(x, t[j]) {
      assert less(t[0], t[j]);
    }
  }

  /** Inserting adds exactly the value. */
  lemma {:induction false} InsertDistinctElems<T(!new)>(less: (T, T) -> bool, x: T, s: seq<T>)
    ensures Elems(InsertDistinct(less, x, s)) == Elems(s) + {x}
    decreases |s|
  {
    if |s| == 0 {
      assert Elems([x]) == {x};
    } else if x == s[0] {
    } else if less(x, s[0]) {
      assert Elems([x] + s) == Elems(s) + {x};
    } else {
      var t := InsertDistinct(less, x, s[1..]);
      InsertDistinctElems(less, x, s[1..]);
      assert s == [s[0]] + s[1..];
      assert Elems(s) == {s[0]} + Elems(s[1..]);
      assert Elems([s[0]] + t) == {s[0]} + Elems(t);
    }
  }

  /** Grouping's key list: strictly ascending, holding exactly the values of
      `xs`, each once. */
  lemma {:induction false} SortDistinctSpec<T(!new)>(less: (T, T) -> bool, xs: seq<T>)
    requires StrictTotalOrder(less)
    ensures StrictlySorted(less, SortDistinct(less, xs))
    ensures Elems(SortDistinct(less, xs)) == Elems(xs)
    ensures |SortDistinct(less, xs)| == |Elems(xs)|
    decreases |xs|
  {
    if |xs| > 0 {
      var init := xs[..|xs| - 1];
      SortDistinctSpec(less, init);
      InsertDistinctSorted(less, xs[|xs| - 1], SortDistinct(less, init));
      InsertDistinctElems(less, xs[|xs| - 1], SortDistinct(less, init));
      assert xs == init + [xs[|xs| - 1]];
      assert Elems(xs) == Elems(init) + {xs[|xs| - 1]};
    }
    StrictlySortedCard(less, SortDistinct(less, xs));
  }

  /** A strictly sorted list repeats no value, so it is as long as its set. */
  lemma {:induction false} StrictlySortedCard<T(!new)>(less: (T, T) -> bool, s: seq<T>)
    requires StrictTotalOrder(less) && StrictlySorted(less, s)
    ensures |Elems(s)| == |s|
    decreases |s|
  {
    if |s| > 0 {
      StrictlySortedCard(less, s[1..]);
      assert s == [s[0]] + s[1..];
      assert Elems(s) == {s[0]} + Elems(s[1..]);
      assert s[0] !in Elems(s[1..]);
    }
  }
}
