/** The Python string operations the model relies on, with the semantics of
    CPython's `str` methods and of `posixpath.join`. Strings are sequences of
    code points. */
module Text {

  import opened Errors

  /** `s.startswith(p)` */
  predicate StartsWith(s: string, p: string) {
    |p| <= |s| && s[..|p|] == p
  }

  /** `s.endswith(p)` */
  predicate EndsWith(s: string, p: string) {
    |p| <= |s| && s[|s| - |p|..] == p
  }

  /** `p in s`: some suffix of `s` starts with `p` (always true for an empty `p`). */
  predicate Contains(s: string, p: string)
    decreases |s|
  {
    StartsWith(s, p) || (|s| > 0 && Contains(s[1..], p))
  }

  /** `s.find(p)` for a non-empty `p`: the leftmost position where `p` occurs. */
  function FirstIndex(s: string, p: string): (r: Option<nat>)
    requires |p| > 0
    ensures r.Some? ==> r.value + |p| <= |s| && s[r.value..r.value + |p|] == p
    ensures r.Some? ==> MatchFreeBefore(s, p, r.value)
    ensures r.None? <==> !Contains(s, p)
    decreases |s|
  {
    if StartsWith(s, p) then Some(0)
    else if |s| == 0 then None
    else match FirstIndex(s[1..], p)
      case None => None
      case Some(i) => Some(i + 1)
  }

  /** No occurrence of `p` in `s` starts before position `n`. */
  predicate MatchFreeBefore(s: string, p: string, n: nat)
    requires n <= |s|
    decreases n
  {
    n == 0 || (!StartsWith(s, p) && MatchFreeBefore(s[1..], p, n - 1))
  }

  /** `x` followed by `sep` holds its first `sep` exactly after `x`: splitting
      `x + sep + rest` cuts at the end of `x`. For a one-character separator
      this is "x does not contain sep" (SeparatedOneChar). */
  predicate Separated(x: string, sep: string) {
    MatchFreeBefore(x + sep, sep, |x|)
  }

  /** `s.split(sep)` for a non-empty `sep`: the pieces between the leftmost
      non-overlapping occurrences of `sep`; never empty. */
  function Split(s: string, sep: string): (pieces: seq<string>)
    requires |sep| > 0
    ensures |pieces| >= 1
    ensures !Contains(s, sep) ==> pieces == [s]
    decreases |s|
  {
    match FirstIndex(s, sep)
    case None => [s]
    case Some(i) => [s[..i]] + Split(s[i + |sep|..], sep)
  }

  /** `sep.join(xs)` */
  function Join(xs: seq<string>, sep: string): string
    decreases |xs|
  {
    if |xs| == 0 then ""
    else if |xs| == 1 then xs[0]
    else xs[0] + sep + Join(xs[1..], sep)
  }

  /** `s.replace(p, r)` for a non-empty `p`: every leftmost non-overlapping
      occurrence of `p` is replaced by `r`. */
  function ReplaceAll(s: string, p: string, r: string): string
    requires |p| > 0
    decreases |s|
  {
    match FirstIndex(s, p)
    case None => s
    case Some(i) => s[..i] + r + ReplaceAll(s[i + |p|..], p, r)
  }

  /** `str.isspace` for one code point: the characters CPython's `strip()`
      removes when given no argument. */
  predicate IsSpace(c: char) {
    var n := c as int;
    (0x09 <= n <= 0x0D) || (0x1C <= n <= 0x20) || n == 0x85 || n == 0xA0 || n == 0x1680
    || (0x2000 <= n <= 0x200A) || n == 0x2028 || n == 0x2029 || n == 0x202F
    || n == 0x205F || n == 0x3000
  }

  /** Neither end of `s` is whitespace. */
  predicate Unpadded(s: string) {
    |s| == 0 || (!IsSpace(s[0]) && !IsSpace(s[|s| - 1]))
  }

  function TrimLeft(s: string): (r: string)
    ensures |r| <= |s| && r == s[|s| - |r|..]
    ensures forall k :: 0 <= k < |s| - |r| ==> IsSpace(s[k])
    ensures |r| > 0 ==> !IsSpace(r[0])
    decreases |s|
  {
    if |s| > 0 && IsSpace(s[0]) then TrimLeft(s[1..]) else s
  }

  function TrimRight(s: string): (r: string)
    ensures |r| <= |s| && r == s[..|r|]
    ensures forall k :: |r| <= k < |s| ==> IsSpace(s[k])
    ensures |r| > 0 ==> !IsSpace(r[|r| - 1])
    decreases |s|
  {
    if |s| > 0 && IsSpace(s[|s| - 1]) then TrimRight(s[..|s| - 1]) else s
  }

  /** `s.strip()`: `s` without its leading and trailing whitespace. */
  function Strip(s: string): (r: string)
  {
    TrimRight(TrimLeft(s))
  }

  /** `r` is the slice of `s` starting at `lo`, everything around it is
      whitespace, and neither end of `r` is. */
  predicate StripAt(s: string, lo: nat, r: string) {
    && lo + |r| <= |s|
    && s[lo..lo + |r|] == r
    && (forall k :: 0 <= k < lo ==> IsSpace(s[k]))
    && (forall k :: lo + |r| <= k < |s| ==> IsSpace(s[k]))
    && Unpadded(r)
  }

  /** What `s.strip()` is meant to return, stated without computing it:
      the part of `s` left once the whitespace on both sides is removed. */
  ghost predicate IsStripOf(s: string, r: string) {
    exists lo: nat :: StripAt(s, lo, r)
  }

  /** `Strip` meets that description. */
  lemma StripSpec(s: string)
    ensures IsStripOf(s, Strip(s))
  {
    var l := TrimLeft(s);
    var r := TrimRight(l);
    StripUnpadded(s);
    StripAtParts(s, l, r);
    assert StripAt(s, |s| - |l|, Strip(s));
  }

  /** Removing leading whitespace and then trailing whitespace leaves a
      slice of `s` with only whitespace around it. */
  lemma StripAtParts(s: string, l: string, r: string)
    requires |l| <= |s| && l == s[|s| - |l|..] && forall k :: 0 <= k < |s| - |l| ==> IsSpace(s[k])
    requires |r| <= |l| && r == l[..|r|] && forall k :: |r| <= k < |l| ==> IsSpace(l[k])
    requires Unpadded(r)
    ensures StripAt(s, |s| - |l|, r)
  {
    var lo := |s| - |l|;
    assert s[lo..lo + |r|] == r by {
      assert s[lo..lo + |r|] == l[..|r|];
    }
    forall k | lo + |r| <= k < |s| ensures IsSpace(s[k]) {
      assert s[k] == l[k - lo];
    }
  }

  /** The description fixes the result: at most one string meets it. */
  lemma {:induction false} StripOfUnique(s: string, r1: string, r2: string)
    requires IsStripOf(s, r1) && IsStripOf(s, r2)
    ensures r1 == r2
  {
    var lo1: nat :| StripAt(s, lo1, r1);
    var lo2: nat :| StripAt(s, lo2, r2);
    if |r1| > 0 && |r2| > 0 {
      assert s[lo1] == r1[0] && s[lo2] == r2[0];
      assert lo1 == lo2;
      var hi1, hi2 := lo1 + |r1| - 1, lo2 + |r2| - 1;
      assert s[hi1] == r1[|r1| - 1] && s[hi2] == r2[|r2| - 1];
      assert hi1 == hi2;
    }
  }

  /** Neither end of the result of `strip()` is whitespace. */
  lemma StripUnpadded(s: string)
    ensures Unpadded(Strip(s))
  {
    var l := TrimLeft(s);
    var r := TrimRight(l);
    if |r| > 0 {
      assert r[0] == l[0];
    }
  }

  /** `strip()` leaves a string alone exactly when neither end is whitespace. */
  lemma StripIdentity(s: string)
    ensures Strip(s) == s <==> Unpadded(s)
  {
    if Strip(s) == s {
      StripUnpadded(s);
    }
    if Unpadded(s) {
      if |s| > 0 {
        assert !IsSpace(s[0]) && !IsSpace(s[|s| - 1]);
      }
      assert TrimLeft(s) == s;
      assert TrimRight(s) == s;
    }
  }

  /** ASCII `lower()`: upper-case Latin letters become lower case. */
  function Lower(s: string): (r: string)
    ensures |r| == |s|
    ensures forall k :: 0 <= k < |s| ==> r[k] == LowerChar(s[k])
  {
    seq(|s|, k requires 0 <= k < |s| => LowerChar(s[k]))
  }

  function LowerChar(c: char): char {
    if 'A' <= c <= 'Z' then (c as int + 32) as char else c
  }

  /** `posixpath.join(a, b)` */
  function PathJoin(a: string, b: string): (r: string)
    ensures EndsWith(r, b)
  {
    if StartsWith(b, "/") then b
    else if a == "" || EndsWith(a, "/") then a + b
    else a + "/" + b
  }

  // Lemmas about searching and splitting

  /** A match free prefix stays match free when more text is appended, as
      long as every window that starts in it lies inside `s`. */
  lemma {:induction false} MatchFreeAppend(s: string, t: string, p: string, n: nat)
    requires n + |p| <= |s| + 1 && n <= |s|
    requires MatchFreeBefore(s, p, n)
    ensures MatchFreeBefore(s + t, p, n)
    decreases n
  {
    if n > 0 {
      assert (s + t)[..|p|] == s[..|p|];
      assert (s + t)[1..] == s[1..] + t;
      MatchFreeAppend(s[1..], t, p, n - 1);
    }
  }

  /** The leftmost occurrence is at `n` when none starts before `n` and one starts at `n`. */
  lemma {:induction false} FirstIndexAt(s: string, p: string, n: nat)
    requires |p| > 0 && n <= |s|
    requires MatchFreeBefore(s, p, n) && StartsWith(s[n..], p)
    ensures FirstIndex(s, p) == Some(n)
    decreases n
  {
    if n > 0 {
      assert s[1..][n - 1..] == s[n..];
      FirstIndexAt(s[1..], p, n - 1);
    }
  }

  /** A match free string has no occurrence at all. */
  lemma {:induction false} MatchFreeNotContains(s: string, p: string)
    requires |p| > 0 && MatchFreeBefore(s, p, |s|)
    ensures !Contains(s, p)
    decreases |s|
  {
    if |s| > 0 {
      MatchFreeNotContains(s[1..], p);
    }
  }

  /** A separated piece holds no separator. */
  lemma SeparatedNotContains(x: string, sep: string)
    requires |sep| > 0 && Separated(x, sep)
    ensures !Contains(x, sep)
  {
    MatchFreePrefix(x + sep, sep, |x|);
    assert (x + sep)[..|x|] == x;
    MatchFreeNotContains(x, sep);
  }

  /** Cutting the string at or after `n` keeps it match free before `n`
      (a window that starts before `n` and fits in the cut is unchanged). */
  lemma {:induction false} MatchFreePrefix(s: string, p: string, n: nat)
    requires n <= |s| && MatchFreeBefore(s, p, n)
    ensures MatchFreeBefore(s[..n], p, n)
    decreases n
  {
    if n > 0 {
      assert s[..n][1..] == s[1..][..n - 1];
      MatchFreePrefix(s[1..], p, n - 1);
      assert |p| <= n ==> s[..n][..|p|] == s[..|p|];
    }
  }

  /** For a one-character separator, a piece is separated exactly when it
      does not contain the separator character. */
  lemma {:induction false} SeparatedOneChar(x: string, c: char)
    ensures Separated(x, [c]) <==> c !in x
    decreases |x|
  {
    if |x| > 0 {
      assert (x + [c])[1..] == x[1..] + [c];
      assert (x + [c])[..1] == [x[0]];
      SeparatedOneChar(x[1..], c);
      assert c in x <==> x[0] == c || c in x[1..];
    }
  }

  /** For a one-character pattern, `[c] in s` is `c in s`. */
  lemma {:induction false} ContainsOneChar(s: string, c: char)
    ensures Contains(s, [c]) <==> c in s
    decreases |s|
  {
    if |s| > 0 {
      ContainsOneChar(s[1..], c);
      assert c in s <==> s[0] == c || c in s[1..];
    }
  }

  /** Splitting undoes joining when every piece is separated from the next
      (for a one-character separator: no piece contains it). */
  lemma {:induction false} SplitJoin(xs: seq<string>, sep: string)
    requires |sep| > 0 && |xs| >= 1
    requires forall k :: 0 <= k < |xs| ==> Separated(xs[k], sep)
    ensures Split(Join(xs, sep), sep) == xs
    decreases |xs|
  {
    if |xs| == 1 {
      SeparatedNotContains(xs[0], sep);
    } else {
      var x, rest := xs[0], Join(xs[1..], sep);
      var s := x + sep + rest;
      MatchFreeAppend(x + sep, rest, sep, |x|);
      assert s[|x|..] == sep + rest;
      FirstIndexAt(s, sep, |x|);
      assert s[..|x|] == x && s[|x| + |sep|..] == rest;
      SplitJoin(xs[1..], sep);
    }
  }

  lemma JoinCons(x: string, xs: seq<string>, sep: string)
    requires |xs| >= 1
    ensures Join([x] + xs, sep) == x + sep + Join(xs, sep)
  {
    assert ([x] + xs)[1..] == xs;
  }

  /** `s.replace(p, r)` is `r.join(s.split(p))`. */
  lemma {:induction false} ReplaceAllIsJoinSplit(s: string, p: string, r: string)
    requires |p| > 0
    ensures ReplaceAll(s, p, r) == Join(Split(s, p), r)
    decreases |s|
  {
    match FirstIndex(s, p)
    case None =>
      assert Split(s, p) == [s];
    case Some(i) =>
      var rest := s[i + |p|..];
      var tail := Split(rest, p);
      ReplaceAllIsJoinSplit(rest, p, r);
      assert Split(s, p) == [s[..i]] + tail;
      calc {
        ReplaceAll(s, p, r);
        s[..i] + r + ReplaceAll(rest, p, r);
        s[..i] + r + Join(tail, r);
        { JoinCons(s[..i], tail, r); }
        Join([s[..i]] + tail, r);
        Join(Split(s, p), r);
      }
  }

  /** Text put in front keeps a suffix a suffix. */
  lemma EndsWithPrepend(a: string, s: string, p: string)
    requires EndsWith(s, p)
    ensures EndsWith(a + s, p) && StartsWith(a + s, a)
  {
    assert (a + s)[|a + s| - |p|..] == s[|s| - |p|..];
    assert (a + s)[..|a|] == a;
  }

  /** Removing `p` from `x + p` gives back `x` when `x` is separated from `p`. */
  lemma RemoveSuffixOccurrence(x: string, p: string)
    requires |p| > 0 && Separated(x, p)
    ensures ReplaceAll(x + p, p, "") == x
  {
    assert Separated("", p);
    SplitJoin([x, ""], p);
    assert Join([x, ""], p) == x + p;
    ReplaceAllIsJoinSplit(x + p, p, "");
    assert Join([x, ""], "") == x;
  }
  /** A string contains each of its suffixes. */
  lemma {:induction false} EndsWithContains(s: string, p: string)
    ensures EndsWith(s, p) ==> Contains(s, p)
    decreases |s|
  {
    if EndsWith(s, p) {
      if |s| > |p| {
        assert s[1..][|s[1..]| - |p|..] == s[|s| - |p|..];
        EndsWithContains(s[1..], p);
      } else {
        assert s[..|p|] == s;
      }
    }
  }

  /** Lower-casing works character by character, so it distributes over
      concatenation. */
  lemma LowerAppend(a: string, b: string)
    ensures Lower(a + b) == Lower(a) + Lower(b)
  {
  }
}
