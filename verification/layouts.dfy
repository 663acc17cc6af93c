/** `get_layout` and `layout_sequence` of src/lib/kiro.py: a run of key
    indices that follows a keyboard layout from the glyph at a start index.

    The layouts table (`layouts.json`, loaded through a cache in the source)
    is a parameter.  Python's list slicing with step 1 and step -1 is written
    out, because the backward case of `layout_sequence` depends on how a
    negative slice bound is read. */
module Layouts {
  import opened Results
  import Ascii
  import Util
  import opened Keysets
  import opened Tokens

  /** A keyboard layout: its glyphs in layout order. */
  type Layout = seq<string>

  function Min(a: int, b: int): int { if a <= b then a else b }
  function Max(a: int, b: int): int { if a >= b then a else b }
  function Abs(a: int): nat { if a < 0 then -a else a }

  predicate Distinct<T(==)>(xs: seq<T>) {
    forall i, j :: 0 <= i < j < |xs| ==> xs[i] != xs[j]
  }

  /** Every glyph is its own upper-case form (as in the shipped layouts). */
  predicate UpperCaseLayout(lo: Layout) {
    forall k :: 0 <= k < |lo| ==> Ascii.Upper(lo[k]) == lo[k]
  }

  /** `get_layout`: an unknown layout name gives an empty layout. */
  function GetLayout(layouts: map<string, Layout>, name: string): (lo: Layout)
    ensures name in layouts ==> lo == layouts[name]
    ensures name !in layouts ==> lo == []
  {
    if name in layouts then layouts[name] else []
  }

  // ---------------------------------------------------------------------------
  // Python slices with step 1 and step -1

  /** CPython's reading of a slice bound for step 1: a negative bound counts
      from the end, and the result is clamped to [0, n]. */
  function AdjustUp(i: int, n: nat): (a: int)
    ensures 0 <= a <= n
    ensures 0 <= i <= n ==> a == i
  {
    if i < 0 then (if i + n < 0 then 0 else i + n)
    else if i > n then n
    else i
  }

  /** The same for step -1, clamped to [-1, n - 1] instead. */
  function AdjustDown(i: int, n: nat): (a: int)
    ensures -1 <= a <= n - 1
    ensures 0 <= i < n ==> a == i
  {
    if i < 0 then (if i + n < 0 then -1 else i + n)
    else if i >= n then n - 1
    else i
  }

  /** `xs[start:stop]`. */
  function SliceUp<T>(xs: seq<T>, start: int, stop: int): (r: seq<T>)
    ensures |r| == Max(0, AdjustUp(stop, |xs|) - AdjustUp(start, |xs|))
    ensures forall k :: 0 <= k < |r| ==> r[k] == xs[AdjustUp(start, |xs|) + k]
  {
    var a := AdjustUp(start, |xs|);
    var b := AdjustUp(stop, |xs|);
    if a < b then xs[a..b] else []
  }

  /** `xs[start:stop:-1]`: from position `a` down to just above position `b`. */
  function SliceDown<T>(xs: seq<T>, start: int, stop: int): (r: seq<T>)
    ensures |r| == Max(0, AdjustDown(start, |xs|) - AdjustDown(stop, |xs|))
    ensures forall k :: 0 <= k < |r| ==> r[k] == xs[AdjustDown(start, |xs|) - k]
  {
    var a := AdjustDown(start, |xs|);
    var b := AdjustDown(stop, |xs|);
    if b < a then seq(a - b, k requires 0 <= k < a - b => xs[a - k]) else []
  }

  function Reverse<T>(xs: seq<T>): (r: seq<T>)
    ensures |r| == |xs|
    ensures forall k :: 0 <= k < |xs| ==> r[k] == xs[|xs| - 1 - k]
  {
    seq(|xs|, k requires 0 <= k < |xs| => xs[|xs| - 1 - k])
  }

  // ---------------------------------------------------------------------------
  // The layout window

  /** The glyphs `lo[f:f + length:-1 if length < 0 else 1]` of the source. */
  function Window(lo: Layout, f: nat, length: int): (w: seq<string>)
    requires f < |lo|
    ensures |w| <= Abs(length)
    ensures |w| > 0 ==> w[0] == lo[f]
    ensures forall k :: 0 <= k < |w| ==> w[k] in lo
  {
    if length < 0 then SliceDown(lo, f, f + length) else SliceUp(lo, f, f + length)
  }

  /** The window evidently meant: |length| glyphs starting at `f`, walking
      forward for a non-negative length and backward for a negative one, cut
      off at either end of the layout. */
  function WindowClipped(lo: Layout, f: nat, length: int): (w: seq<string>)
    requires f < |lo|
    ensures length >= 0 ==> |w| == Min(length, |lo| - f)
    ensures length >= 0 ==> forall k :: 0 <= k < |w| ==> w[k] == lo[f + k]
    ensures length < 0 ==> |w| == Min(-length, f + 1)
    ensures length < 0 ==> forall k :: 0 <= k < |w| ==> w[k] == lo[f - k]
  {
    if length >= 0 then lo[f..Min(f + length, |lo|)]
    else Reverse(lo[Max(f + length + 1, 0)..f + 1])
  }

  /** Walking forward, the source's slice is the evidently meant window. */
  lemma WindowForward(lo: Layout, f: nat, length: int)
    requires f < |lo| && length >= 0
    ensures Window(lo, f, length) == WindowClipped(lo, f, length)
  {
  }

  /** Walking backward, the source's slice is the meant window exactly when
      the stop bound `f + length` is not a negative number that Python reads
      as counting from the end of the layout. */
  lemma WindowBackward(lo: Layout, f: nat, length: int)
    requires f < |lo| && length < 0
    ensures Window(lo, f, length) == WindowClipped(lo, f, length)
        <==> f + length >= 0 || f + length < -|lo|
  {
    var w := Window(lo, f, length);
    var c := WindowClipped(lo, f, length);
    var stop := f + length;
    if stop >= 0 || stop < -|lo| {
      var b := if stop >= 0 then stop else -1;
      assert AdjustDown(stop, |lo|) == b;
      assert |w| == |c|;
      forall k | 0 <= k < |w| ensures w[k] == c[k] {
      }
    } else {
      assert AdjustDown(stop, |lo|) == stop + |lo|;
      assert |c| == f + 1;
      assert |w| < f + 1;
    }
  }

  // ---------------------------------------------------------------------------
  // Indices of a window

  function Somes<T>(xs: seq<T>): (r: seq<Option<T>>)
    ensures |r| == |xs|
    ensures forall k :: 0 <= k < |xs| ==> r[k] == Some(xs[k])
  {
    seq(|xs|, k requires 0 <= k < |xs| => Some(xs[k]))
  }

  lemma SomesCons<T>(x: T, xs: seq<T>)
    ensures Somes([x] + xs) == [Some(x)] + Somes(xs)
  {
  }

  /** `tokens_to_indices` of a list of plain glyphs: glyphs missing from the
      table are dropped (see `IndicesOfTokens`), and no gap can appear. */
  function IndicesOf(glyphs: seq<string>, table: KeyTable): (r: seq<nat>)
    ensures |r| <= |glyphs|
    ensures forall k :: 0 <= k < |r| ==> r[k] < |table| && table[r[k]].Some?
  {
    if glyphs == [] then []
    else
      match FirstIndex(table, glyphs[0])
      case Some(p) => [p] + IndicesOf(glyphs[1..], table)
      case None => IndicesOf(glyphs[1..], table)
  }

  /** `IndicesOf` is `tokens_to_indices` of the glyphs read as tokens. */
  lemma {:induction false} IndicesOfTokens(glyphs: seq<string>, table: KeyTable)
    ensures Somes(IndicesOf(glyphs, table)) == TokensToIndices(Somes(glyphs), table)
  {
    if glyphs != [] {
      IndicesOfTokens(glyphs[1..], table);
      IndicesOfStep(glyphs, table);
    }
  }

  /** The inductive step of `IndicesOfTokens`. */
  lemma IndicesOfStep(glyphs: seq<string>, table: KeyTable)
    requires glyphs != []
    requires Somes(IndicesOf(glyphs[1..], table)) == TokensToIndices(Somes(glyphs[1..]), table)
    ensures Somes(IndicesOf(glyphs, table)) == TokensToIndices(Somes(glyphs), table)
  {
    var tail := IndicesOf(glyphs[1..], table);
    SomesCons(glyphs[0], glyphs[1..]);
    assert [glyphs[0]] + glyphs[1..] == glyphs;
    GlyphIndices(glyphs[0], Somes(glyphs[1..]), table);
    match FirstIndex(table, glyphs[0]) {
      case Some(p) =>
        SomesCons(p, tail);
      case None =>
    }
  }

  /** `tokens_to_indices` of a leading glyph: its first index in the table,
      or nothing when the table lacks it. */
  lemma GlyphIndices(g: string, rest: seq<Token>, table: KeyTable)
    ensures TokensToIndices([Some(g)] + rest, table) ==
      match FirstIndex(table, g)
      case Some(p) => [Some(p)] + TokensToIndices(rest, table)
      case None => TokensToIndices(rest, table)
  {
    assert ([Some(g)] + rest)[1..] == rest;
  }

  /** On a table listing a layout's distinct glyphs in layout order, the
      indices of glyphs taken from the layout are their layout positions. */
  lemma {:induction false} IndicesOfPositions(glyphs: seq<string>, lo: Layout, pos: seq<nat>)
    requires Distinct(lo) && |glyphs| == |pos|
    requires forall k :: 0 <= k < |pos| ==> pos[k] < |lo| && glyphs[k] == lo[pos[k]]
    ensures IndicesOf(glyphs, Somes(lo)) == pos
  {
    if glyphs != [] {
      var p := pos[0];
      assert Somes(lo)[p] == Some(glyphs[0]);
      var q := FirstIndex(Somes(lo), glyphs[0]);
      assert q == Some(p) by {
        assert q.Some? && Somes(lo)[q.value] == Some(glyphs[0]);
        assert lo[q.value] == lo[p];
      }
      IndicesOfPositions(glyphs[1..], lo, pos[1..]);
      assert pos == [p] + pos[1..];
    }
  }

  // ---------------------------------------------------------------------------
  // layout_sequence

  /** The part of `layout_sequence` before the slice: the glyph at `start` is
      looked up (a failure there propagates), and the position of its upper
      case in the layout is found.  None stands for the source's bare
      `except`, which answers `[start]`: a blank or out-of-range start cell,
      or a glyph the layout lacks. */
  function Anchor(start: int, lo: Layout, ks: Keyset, parent: Option<MetaData>): (r: Result<Option<nat>, Error>)
    ensures r.Err? <==> Table(ks, parent).Err? || start < -|Table(ks, parent).value|
    ensures r.Ok? && r.value.Some? ==>
      var g := IndexToTokenFor(start, ks, parent).value;
      && g.Some? && r.value.value < |lo| && lo[r.value.value] == Ascii.Upper(g.value)
      && Ascii.Upper(g.value) !in lo[..r.value.value]
    ensures r.Ok? && r.value.None? ==>
      var g := IndexToTokenFor(start, ks, parent).value;
      g.None? || Ascii.Upper(g.value) !in lo
    ensures r.Ok? ==>
      var g := IndexToTokenFor(start, ks, parent).value;
      g.Some? ==> r.value == Util.IndexOf(lo, Ascii.Upper(g.value))
  {
    var glyph :- IndexToTokenFor(start, ks, parent);
    if glyph.None? then Ok(None)
    else
      var f := Util.IndexOf(lo, Ascii.Upper(glyph.value));
      if f.Some? then
        assert forall q :: 0 <= q < f.value ==> lo[q] != Ascii.Upper(glyph.value);
        Ok(f)
      else Ok(None)
  }

  /** `layout_sequence` as written.  The layout "_" and every case the
      source's `except` catches give `[start]`; otherwise the indices of the
      layout window, read with Python's slice rules. */
  function LayoutSequence(start: int, length: int, layoutName: string, layouts: map<string, Layout>,
                          ks: Keyset, parent: Option<MetaData>): (r: Result<seq<int>, Error>)
    ensures layoutName == "_" ==> r == Ok([start])
    ensures layoutName != "_" ==>
      (r.Err? <==> Table(ks, parent).Err? || start < -|Table(ks, parent).value|)
    ensures r.Ok? && r.value != [start] ==>
      && Table(ks, parent).Ok? && |r.value| <= Abs(length)
      && forall k :: 0 <= k < |r.value| ==> 0 <= r.value[k] < |Table(ks, parent).value|
    ensures layoutName != "_" ==>
      var lo := GetLayout(layouts, layoutName);
      var a := Anchor(start, lo, ks, parent);
      && (a == Ok(None) ==> r == Ok([start]))
      && (a.Ok? && a.value.Some? ==>
            r.Ok? && Somes(r.value) == TokensToIndices(Somes(Window(lo, a.value.value, length)), Table(ks, parent).value))
  {
    if layoutName == "_" then Ok([start])
    else
      var lo := GetLayout(layouts, layoutName);
      var anchor :- Anchor(start, lo, ks, parent);
      if anchor.None? then Ok([start])
      else
        var w := Window(lo, anchor.value, length);
        IndicesOfTokens(w, Table(ks, parent).value);
        Ok(IndicesOf(w, Table(ks, parent).value))
  }

  /** `layout_sequence` with the backward window cut off at the start of the
      layout instead of wrapping around (see `WindowBackward`). */
  function LayoutSequenceClipped(start: int, length: int, layoutName: string, layouts: map<string, Layout>,
                                 ks: Keyset, parent: Option<MetaData>): (r: Result<seq<int>, Error>)
    ensures layoutName == "_" ==> r == Ok([start])
    ensures layoutName != "_" ==>
      (r.Err? <==> Table(ks, parent).Err? || start < -|Table(ks, parent).value|)
    ensures r.Ok? && r.value != [start] ==>
      && Table(ks, parent).Ok? && |r.value| <= Abs(length)
      && forall k :: 0 <= k < |r.value| ==> 0 <= r.value[k] < |Table(ks, parent).value|
    ensures layoutName != "_" ==>
      var lo := GetLayout(layouts, layoutName);
      var a := Anchor(start, lo, ks, parent);
      && (a == Ok(None) ==> r == Ok([start]))
      && (a.Ok? && a.value.Some? ==>
            r.Ok? && Somes(r.value) == TokensToIndices(Somes(WindowClipped(lo, a.value.value, length)), Table(ks, parent).value))
  {
    if layoutName == "_" then Ok([start])
    else
      var lo := GetLayout(layouts, layoutName);
      var anchor :- Anchor(start, lo, ks, parent);
      if anchor.None? then Ok([start])
      else
        var w := WindowClipped(lo, anchor.value, length);
        IndicesOfTokens(w, Table(ks, parent).value);
        Ok(IndicesOf(w, Table(ks, parent).value))
  }

  /** `count` integers from `start`, `step` apart. */
  function Run(start: int, count: nat, step: int): (r: seq<int>)
    ensures |r| == count
    ensures forall k :: 0 <= k < count ==> r[k] == start + step * k
  {
    seq(count, k requires 0 <= k < count => start + step * k)
  }

  /** A keyset whose table lists a layout's glyphs, one per key, in layout
      order: the setting in which a layout run is a run of key indices. */
  predicate LaidOut(lo: Layout, name: string, layouts: map<string, Layout>, ks: Keyset, parent: Option<MetaData>) {
    && name != "_" && name in layouts && layouts[name] == lo
    && Distinct(lo) && UpperCaseLayout(lo)
    && Table(ks, parent) == Ok(Somes(lo))
  }

  lemma AnchorLaidOut(lo: Layout, start: nat, ks: Keyset, parent: Option<MetaData>)
    requires start < |lo| && Distinct(lo) && UpperCaseLayout(lo)
    requires Table(ks, parent) == Ok(Somes(lo))
    ensures Anchor(start, lo, ks, parent) == Ok(Some(start))
  {
    assert IndexToTokenFor(start, ks, parent) == Ok(Some(lo[start]));
    var f := Util.IndexOf(lo, lo[start]);
    assert f.Some? && lo[f.value] == lo[start];
  }

  /** Walking forward from a key of a laid-out keyset gives the next
      `length` key indices, cut off at the end of the layout. */
  lemma LayoutForwardRun(lo: Layout, name: string, layouts: map<string, Layout>,
                         ks: Keyset, parent: Option<MetaData>, start: nat, length: nat)
    requires LaidOut(lo, name, layouts, ks, parent) && start < |lo|
    ensures LayoutSequence(start, length, name, layouts, ks, parent) == Ok(Run(start, Min(length, |lo| - start), 1))
    ensures LayoutSequenceClipped(start, length, name, layouts, ks, parent) == Ok(Run(start, Min(length, |lo| - start), 1))
  {
    AnchorLaidOut(lo, start, ks, parent);
    WindowForward(lo, start, length);
    var w := WindowClipped(lo, start, length);
    var pos := Run(start, Min(length, |lo| - start), 1);
    IndicesOfPositions(w, lo, pos);
  }

  /** In the corrected model, walking backward from a key gives the previous
      `-length` key indices in descending order, cut off at index 0. */
  lemma LayoutBackwardRun(lo: Layout, name: string, layouts: map<string, Layout>,
                          ks: Keyset, parent: Option<MetaData>, start: nat, length: int)
    requires LaidOut(lo, name, layouts, ks, parent) && start < |lo| && length < 0
    ensures LayoutSequenceClipped(start, length, name, layouts, ks, parent) == Ok(Run(start, Min(-length, start + 1), -1))
  {
    AnchorLaidOut(lo, start, ks, parent);
    var w := WindowClipped(lo, start, length);
    var pos := Run(start, Min(-length, start + 1), -1);
    IndicesOfPositions(w, lo, pos);
  }

  /** As written, the backward run is right exactly when `start + length`
      is not in [-|lo|, -1]; in that range Python reads the stop bound from
      the end of the layout and the run comes out shorter (usually empty). */
  lemma LayoutBackwardAsWritten(lo: Layout, name: string, layouts: map<string, Layout>,
                                ks: Keyset, parent: Option<MetaData>, start: nat, length: int)
    requires LaidOut(lo, name, layouts, ks, parent) && start < |lo| && length < 0
    ensures LayoutSequence(start, length, name, layouts, ks, parent) == Ok(Run(start, Min(-length, start + 1), -1))
        <==> start + length >= 0 || start + length < -|lo|
  {
    AnchorLaidOut(lo, start, ks, parent);
    LayoutBackwardRun(lo, name, layouts, ks, parent, start, length);
    WindowBackward(lo, start, length);
    var w := Window(lo, start, length);
    var c := WindowClipped(lo, start, length);
    if w != c {
      // Both windows hold distinct layout glyphs, so distinct windows give
      // distinct index lists.
      var table := Somes(lo);
      assert |IndicesOf(w, table)| <= |w|;
      assert |w| < |c| by {
        var stop := start + length;
        assert AdjustDown(stop, |lo|) == stop + |lo|;
      }
    }
  }

  // ---------------------------------------------------------------------------
  // Examples on the layout Q W E R with the table Q W E R

  function Qwer(): Layout { ["Q", "W", "E", "R"] }

  lemma QwerLaidOut(ks: Keyset, parent: Option<MetaData>)
    requires Table(ks, parent) == Ok(Somes(Qwer()))
    ensures LaidOut(Qwer(), "qwer", map["qwer" := Qwer()], ks, parent)
  {
    assert Ascii.Upper("Q") == "Q" && Ascii.Upper("W") == "W";
    assert Ascii.Upper("E") == "E" && Ascii.Upper("R") == "R";
  }

  /** From index 0, three keys forward. */
  lemma ForwardExample(ks: Keyset, parent: Option<MetaData>)
    requires Table(ks, parent) == Ok(Somes(Qwer()))
    ensures LayoutSequence(0, 3, "qwer", map["qwer" := Qwer()], ks, parent) == Ok([0, 1, 2])
  {
    QwerLaidOut(ks, parent);
    LayoutForwardRun(Qwer(), "qwer", map["qwer" := Qwer()], ks, parent, 0, 3);
    assert Run(0, 3, 1) == [0, 1, 2];
  }

  /** From index 2, two keys backward. */
  lemma BackwardExample(ks: Keyset, parent: Option<MetaData>)
    requires Table(ks, parent) == Ok(Somes(Qwer()))
    ensures LayoutSequence(2, -2, "qwer", map["qwer" := Qwer()], ks, parent) == Ok([2, 1])
  {
    QwerLaidOut(ks, parent);
    LayoutBackwardAsWritten(Qwer(), "qwer", map["qwer" := Qwer()], ks, parent, 2, -2);
    assert Run(2, 2, -1) == [2, 1];
  }

  /** The layout "_" and an unknown layout both leave the start alone. */
  lemma FallbackExamples(ks: Keyset, parent: Option<MetaData>)
    requires Table(ks, parent) == Ok(Somes(Qwer()))
    ensures LayoutSequence(1, 2, "_", map["qwer" := Qwer()], ks, parent) == Ok([1])
    ensures LayoutSequence(1, 2, "dvorak", map["qwer" := Qwer()], ks, parent) == Ok([1])
  {
    assert Anchor(1, [], ks, parent) == Ok(None);
  }

  /** Backward from index 1 by two keys the source gives nothing, where the
      evidently intended answer is [1, 0]. */
  lemma LayoutBackwardWraps(ks: Keyset, parent: Option<MetaData>)
    requires Table(ks, parent) == Ok(Somes(Qwer()))
    ensures LayoutSequence(1, -2, "qwer", map["qwer" := Qwer()], ks, parent) == Ok([])
    ensures LayoutSequenceClipped(1, -2, "qwer", map["qwer" := Qwer()], ks, parent) == Ok([1, 0])
  {
    var los := map["qwer" := Qwer()];
    QwerLaidOut(ks, parent);
    AnchorLaidOut(Qwer(), 1, ks, parent);
    assert Window(Qwer(), 1, -2) == [];
    LayoutBackwardRun(Qwer(), "qwer", los, ks, parent, 1, -2);
    assert Run(1, 2, -1) == [1, 0];
  }
}
