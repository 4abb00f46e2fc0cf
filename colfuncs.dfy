/** The header codec: folding a multi-level column header into one name per
    column (`collapse_cols`) and splitting such names back into header levels
    (`inflate_cols`). */
module Colfuncs {

  import opened Errors
  import opened Text

  /** A multi-level header: for each column, in column order, its name at
      every header level (pandas' `MultiIndex` tuples). */
  type Header = seq<seq<string>>

  /** Default separator of `inflate_cols`. */
  const InflateSep: string := " "

  /** Default separator of `collapse_cols`. */
  const CollapseSep: string := "_"

  /** `collapse_cols`: one name per column, in column order, the column's
      levels joined with `sep` and stripped of outer whitespace. */
  function CollapseCols(header: Header, sep: string): (names: seq<string>)
    ensures |names| == |header|
    ensures forall c :: 0 <= c < |header| ==> Unpadded(names[c])
    ensures forall c :: 0 <= c < |header| && Unpadded(Join(header[c], sep)) ==>
              names[c] == Join(header[c], sep)
    ensures forall c :: 0 <= c < |header| ==> IsStripOf(Join(header[c], sep), names[c])
  {
    var names := seq(|header|, c requires 0 <= c < |header| => Strip(Join(header[c], sep)));
    forall c | 0 <= c < |header|
      ensures Unpadded(names[c])
      ensures Unpadded(Join(header[c], sep)) ==> names[c] == Join(header[c], sep)
      ensures IsStripOf(Join(header[c], sep), names[c])
    {
      StripUnpadded(Join(header[c], sep));
      StripIdentity(Join(header[c], sep));
      StripSpec(Join(header[c], sep));
    }
    names
  }

  /** `[col.split(sep) for col in names]` */
  function Pieces(names: seq<string>, sep: string): (pieces: seq<seq<string>>)
    requires |sep| > 0
    ensures |pieces| == |names|
    ensures forall c :: 0 <= c < |names| ==> pieces[c] == Split(names[c], sep)
  {
    seq(|names|, c requires 0 <= c < |names| => Split(names[c], sep))
  }

  /** The length of the shortest piece list, where `zip` stops; 0 when
      there is no column. */
  function MinLength(pieces: seq<seq<string>>): (m: nat)
    ensures forall c :: 0 <= c < |pieces| ==> m <= |pieces[c]|
    ensures |pieces| > 0 ==> exists c :: 0 <= c < |pieces| && m == |pieces[c]|
    ensures |pieces| == 0 ==> m == 0
  {
    if |pieces| == 0 then 0
    else if |pieces| == 1 then |pieces[0]|
    else
      var rest := MinLength(pieces[1..]);
      if |pieces[0]| <= rest then |pieces[0]| else rest
  }

  /** `zip(*pieces)`: level `i` lists the `i`-th piece of every column, in
      column order, for every `i` below the shortest piece count. */
  function Zip(pieces: seq<seq<string>>): (levels: seq<seq<string>>)
    ensures |levels| == MinLength(pieces)
    ensures forall i :: 0 <= i < |levels| ==> |levels[i]| == |pieces|
    ensures forall i, c :: 0 <= i < |levels| && 0 <= c < |pieces| ==> levels[i][c] == pieces[c][i]
  {
    var m := MinLength(pieces);
    seq(m, i requires 0 <= i < m =>
      seq(|pieces|, c requires 0 <= c < |pieces| && i < |pieces[c]| => pieces[c][i]))
  }

  /** `pd.DataFrame(levels).T`: the levels turned back into one tuple per column. */
  function Transpose(levels: seq<seq<string>>, width: nat): (tuples: Header)
    requires forall i :: 0 <= i < |levels| ==> |levels[i]| == width
    ensures |tuples| == width
    ensures forall c :: 0 <= c < width ==> |tuples[c]| == |levels|
    ensures forall c, i :: 0 <= c < width && 0 <= i < |levels| ==> tuples[c][i] == levels[i][c]
  {
    seq(width, c requires 0 <= c < width => seq(|levels|, i requires 0 <= i < |levels| => levels[i][c]))
  }

  /** `inflate_cols`: split every name on `sep` and rebuild a multi-level
      header from the pieces, truncated to the shortest split (no raggedness
      check). No column at all leaves pandas with zero levels, which it
      refuses; an empty separator is refused by `str.split`. */
  function InflateCols(names: seq<string>, sep: string): (r: Result<Header>)
    ensures r.Err? <==> |names| == 0 || |sep| == 0
    ensures |names| == 0 ==> r == Err(NoLevels)
    ensures |names| > 0 && |sep| == 0 ==> r == Err(EmptySeparator)
  {
    if |names| == 0 then Err(NoLevels)
    else if |sep| == 0 then Err(EmptySeparator)
    else Ok(Transpose(Zip(Pieces(names, sep)), |names|))
  }

  /** Every inflated tuple is its name's split truncated to the common length,
      the smallest piece count over all names, which is at least one. */
  lemma InflateTruncates(names: seq<string>, sep: string)
    requires |names| > 0 && |sep| > 0
    ensures InflateCols(names, sep).Ok?
    ensures var h := InflateCols(names, sep).value;
            var m := MinLength(Pieces(names, sep));
            && m >= 1
            && (forall c :: 0 <= c < |names| ==> m <= |Split(names[c], sep)|)
            && (exists c :: 0 <= c < |names| && m == |Split(names[c], sep)|)
            && |h| == |names|
            && (forall c :: 0 <= c < |names| ==> h[c] == Split(names[c], sep)[..m])
  {
    var pieces := Pieces(names, sep);
    var h := InflateCols(names, sep).value;
    var m := MinLength(pieces);
    forall c | 0 <= c < |names| ensures h[c] == Split(names[c], sep)[..m] {
      assert |h[c]| == m;
    }
  }

  /** Names that all split into two pieces give a two-level header, one
      tuple per column holding exactly those two pieces. */
  lemma InflateTwoLevels(names: seq<string>, sep: string)
    requires |names| > 0 && |sep| > 0
    requires forall c :: 0 <= c < |names| ==> |Split(names[c], sep)| == 2
    ensures InflateCols(names, sep).Ok?
    ensures var h := InflateCols(names, sep).value;
            |h| == |names| && forall c :: 0 <= c < |names| ==> |h[c]| == 2 && h[c] == Split(names[c], sep)
  {
    InflateTruncates(names, sep);
    var h := InflateCols(names, sep).value;
    forall c | 0 <= c < |names| ensures h[c] == Split(names[c], sep) {
      assert Split(names[c], sep)[..2] == Split(names[c], sep);
    }
  }

  /** Names whose splits all have the same length inflate to exactly those
      splits: nothing is truncated. */
  lemma InflateEvenSplits(names: seq<string>, sep: string, depth: nat)
    requires |names| > 0 && |sep| > 0
    requires forall c :: 0 <= c < |names| ==> |Split(names[c], sep)| == depth
    ensures InflateCols(names, sep) == Ok(Pieces(names, sep))
  {
    var pieces := Pieces(names, sep);
    assert MinLength(pieces) == depth;
    var levels := Zip(pieces);
    var h := Transpose(levels, |names|);
    assert InflateCols(names, sep) == Ok(h);
    forall c | 0 <= c < |names| ensures h[c] == pieces[c] {
      assert |h[c]| == depth;
      forall l | 0 <= l < depth ensures h[c][l] == pieces[c][l] {
        assert h[c][l] == levels[l][c];
      }
    }
    assert h == pieces;
  }

  /** Each collapsed name splits back into its tuple under the conditions of RoundTrip. */
  lemma SplitCollapsed(header: Header, sep: string)
    requires |sep| > 0
    requires forall c :: 0 <= c < |header| ==> |header[c]| > 0
    requires forall c, l :: 0 <= c < |header| && 0 <= l < |header[c]| ==> Separated(header[c][l], sep)
    requires forall c :: 0 <= c < |header| ==> Unpadded(Join(header[c], sep))
    ensures Pieces(CollapseCols(header, sep), sep) == header
  {
    var names := CollapseCols(header, sep);
    var pieces := Pieces(names, sep);
    forall c | 0 <= c < |header| ensures pieces[c] == header[c] {
      assert names[c] == Join(header[c], sep);
      SplitJoin(header[c], sep);
    }
    assert |pieces| == |header|;
  }

  /** The round trip: collapsing and then inflating with the same separator
      gives back the header, when all tuples have the same (positive) length,
      every level name is separated from the separator that follows it, and
      no joined name has outer whitespace for `strip()` to remove. */
  lemma RoundTrip(header: Header, sep: string, depth: nat)
    requires |header| > 0 && |sep| > 0 && depth > 0
    requires forall c :: 0 <= c < |header| ==> |header[c]| == depth
    requires forall c, l :: 0 <= c < |header| && 0 <= l < depth ==> Separated(header[c][l], sep)
    requires forall c :: 0 <= c < |header| ==> Unpadded(Join(header[c], sep))
    ensures InflateCols(CollapseCols(header, sep), sep) == Ok(header)
  {
    SplitCollapsed(header, sep);
    InflateEvenSplits(CollapseCols(header, sep), sep, depth);
  }

  /** A one-character separator that occurs in no level name satisfies the
      separation condition of RoundTrip. */
  lemma RoundTripOneChar(header: Header, sep: char, depth: nat)
    requires |header| > 0 && depth > 0
    requires forall c :: 0 <= c < |header| ==> |header[c]| == depth
    requires forall c, l :: 0 <= c < |header| && 0 <= l < depth ==> sep !in header[c][l]
    requires forall c :: 0 <= c < |header| ==> Unpadded(Join(header[c], [sep]))
    ensures InflateCols(CollapseCols(header, [sep]), [sep]) == Ok(header)
  {
    forall c, l | 0 <= c < |header| && 0 <= l < depth ensures Separated(header[c][l], [sep]) {
      SeparatedOneChar(header[c][l], sep);
    }
    RoundTrip(header, [sep], depth);
  }

  /** The column names of the test data collapse as the test expects. */
  lemma CollapseExample()
    ensures CollapseCols([["Image", "ImageNumber"], ["Metadata", "Well"]], "_")
         == ["Image_ImageNumber", "Metadata_Well"]
  {
    var header := [["Image", "ImageNumber"], ["Metadata", "Well"]];
    assert Join(header[0], "_") == "Image_ImageNumber";
    assert Unpadded("Image_ImageNumber");
    assert Join(header[1], "_") == "Metadata_Well";
    assert Unpadded("Metadata_Well");
    var names := CollapseCols(header, "_");
    assert names[0] == "Image_ImageNumber";
    assert names[1] == "Metadata_Well";
  }

  /** An empty last level with a space separator is lost: `strip()` removes
      the trailing separator, and the collapsed name comes back as a
      one-level tuple. */
  lemma EmptyLevelLost(a: string)
    requires |a| > 0 && Unpadded(a) && ' ' !in a
    ensures CollapseCols([[a, ""]], " ") == [a]
    ensures InflateCols([a], " ") == Ok([[a]])
  {
    var joined := Join([a, ""], " ");
    assert [a, ""][1..] == [""];
    assert Join([""], " ") == "";
    assert a + " " + "" == a + " ";
    assert joined == a + " ";
    assert TrimLeft(joined) == joined;
    assert joined[..|a|] == a;
    assert TrimRight(joined) == TrimRight(a) == a;
    var names := CollapseCols([[a, ""]], " ");
    assert names[0] == a;
    ContainsOneChar(a, ' ');
    InflateEvenSplits([a], " ", 1);
    assert Pieces([a], " ")[0] == [a];
    assert Pieces([a], " ") == [[a]];
  }

  /** Ragged names are truncated to the shortest split, not rejected: names
      of three and two pieces inflate to two levels. */
  lemma RaggedTruncated(a: string, b: string, c: string, d: string, e: string, sep: char)
    requires sep !in a && sep !in b && sep !in c && sep !in d && sep !in e
    ensures InflateCols([Join([a, b, c], [sep]), Join([d, e], [sep])], [sep]) == Ok([[a, b], [d, e]])
  {
    SplitJoinOneChar([a, b, c], sep);
    SplitJoinOneChar([d, e], sep);
    InflateTwoNames(Join([a, b, c], [sep]), Join([d, e], [sep]), [sep], [a, b, c], [d, e]);
    assert [a, b, c][..|[d, e]|] == [a, b];
  }

  /** Two names whose splits have lengths `|p0| >= |p1|` inflate to the first
      split cut to the length of the second, and the second. */
  lemma InflateTwoNames(n0: string, n1: string, sep: string, p0: seq<string>, p1: seq<string>)
    requires |sep| > 0 && Split(n0, sep) == p0 && Split(n1, sep) == p1 && |p0| >= |p1|
    ensures InflateCols([n0, n1], sep) == Ok([p0[..|p1|], p1])
  {
    var names := [n0, n1];
    var pieces := Pieces(names, sep);
    assert pieces == [p0, p1];
    assert MinLength(pieces) == |p1| by {
      assert pieces[1..] == [p1];
    }
    InflateTruncates(names, sep);
    var h := InflateCols(names, sep).value;
    assert h == [p0[..|p1|], p1] by {
      assert h[0] == p0[..|p1|];
      assert h[1] == p1[..|p1|] == p1;
    }
  }

  /** With a one-character separator that no name contains, splitting undoes
      joining. */
  lemma SplitJoinOneChar(xs: seq<string>, sep: char)
    requires |xs| >= 1 && forall k :: 0 <= k < |xs| ==> sep !in xs[k]
    ensures Split(Join(xs, [sep]), [sep]) == xs
  {
    forall k | 0 <= k < |xs| ensures Separated(xs[k], [sep]) {
      SeparatedOneChar(xs[k], sep);
    }
    SplitJoin(xs, [sep]);
  }

  /** The two defaults differ: a two-level name collapsed with
      `collapse_cols`' default does not come apart with `inflate_cols`'
      default, and inflates to a single level. */
  lemma DefaultSeparatorsDiffer(x: string, y: string)
    requires ' ' !in x && ' ' !in y && Unpadded(x + "_" + y)
    ensures InflateCols(CollapseCols([[x, y]], CollapseSep), InflateSep) == Ok([[x + "_" + y]])
  {
    var name := x + "_" + y;
    assert Join([x, y], CollapseSep) == name;
    var names := CollapseCols([[x, y]], CollapseSep);
    assert names == [name];
    assert ' ' !in name;
    ContainsOneChar(name, ' ');
    InflateEvenSplits([name], InflateSep, 1);
    assert Pieces([name], InflateSep)[0] == [name];
    assert Pieces([name], InflateSep) == [[name]];
  }
}
