/** Text utilities of src/lib/util.py: `flatten` and the greedy `wordwrap`. */
module Util {
  import opened Results

  /** Sum of the lengths of the sublists. */
  function TotalLength<T>(xss: seq<seq<T>>): nat {
    if xss == [] then 0 else |xss[0]| + TotalLength(xss[1..])
  }

  /** `flatten`: the sublists concatenated in order. */
  function Flatten<T>(xss: seq<seq<T>>): (r: seq<T>)
    ensures |r| == TotalLength(xss)
  {
    if xss == [] then [] else xss[0] + Flatten(xss[1..])
  }

  lemma {:induction false} TotalLengthAppend<T>(a: seq<seq<T>>, b: seq<seq<T>>)
    ensures TotalLength(a + b) == TotalLength(a) + TotalLength(b)
  {
    if a != [] {
      assert (a + b)[1..] == a[1..] + b;
      TotalLengthAppend(a[1..], b);
    } else {
      assert a + b == b;
    }
  }

  /** Flattening distributes over concatenation of the outer list. */
  lemma {:induction false} FlattenAppend<T>(a: seq<seq<T>>, b: seq<seq<T>>)
    ensures Flatten(a + b) == Flatten(a) + Flatten(b)
  {
    if a == [] {
      assert a + b == b;
    } else {
      assert (a + b)[1..] == a[1..] + b;
      FlattenAppend(a[1..], b);
    }
  }

  /** Element `j` of sublist `i` lands right after all earlier sublists. */
  lemma {:induction false} FlattenPosition<T>(xss: seq<seq<T>>, i: nat, j: nat)
    requires i < |xss| && j < |xss[i]|
    ensures TotalLength(xss[..i]) + j < |Flatten(xss)|
    ensures Flatten(xss)[TotalLength(xss[..i]) + j] == xss[i][j]
  {
    assert xss == xss[..i] + xss[i..];
    FlattenAppend(xss[..i], xss[i..]);
    assert Flatten(xss[i..]) == xss[i] + Flatten(xss[i + 1..]) by {
      assert xss[i..][1..] == xss[i + 1..];
    }
  }

  /** `xs.index(x)` of a Python list: the first position holding `x`, or None
      where the source's `index` raises ValueError. */
  function IndexOf<T(==)>(xs: seq<T>, x: T): (p: Option<nat>)
    ensures p.Some? ==> p.value < |xs| && xs[p.value] == x
    ensures p.Some? ==> forall q :: 0 <= q < p.value ==> xs[q] != x
    ensures p.None? <==> x !in xs
  {
    if xs == [] then None
    else if xs[0] == x then Some(0)
    else match IndexOf(xs[1..], x)
      case None => None
      case Some(q) => Some(q + 1)
  }

  // ---------------------------------------------------------------------------
  // Words: the non-empty pieces of `re.split(' +', string)`.

  predicate IsWord(w: string) {
    w != [] && forall i :: 0 <= i < |w| ==> w[i] != ' '
  }

  /** Length of the leading run of non-space characters. */
  function FirstSpace(s: string): (n: nat)
    ensures n <= |s|
    ensures forall i :: 0 <= i < n ==> s[i] != ' '
    ensures n < |s| ==> s[n] == ' '
  {
    if s == [] || s[0] == ' ' then 0 else 1 + FirstSpace(s[1..])
  }

  /** The maximal runs of non-space characters of `s`, in order. */
  function Words(s: string): (ws: seq<string>)
    ensures forall i :: 0 <= i < |ws| ==> IsWord(ws[i])
    decreases |s|
  {
    if s == [] then []
    else if s[0] == ' ' then Words(s[1..])
    else
      var n := FirstSpace(s);
      [s[..n]] + Words(s[n..])
  }

  /** `' '.join(ws)`. */
  function JoinSpace(ws: seq<string>): string {
    if ws == [] then ""
    else if |ws| == 1 then ws[0]
    else ws[0] + " " + JoinSpace(ws[1..])
  }

  predicate AllWords(ws: seq<string>) {
    forall i :: 0 <= i < |ws| ==> IsWord(ws[i])
  }

  /** A line as wordwrap emits it: non-empty, no space at either end, and
      never two spaces in a row. */
  predicate SingleSpaced(line: string) {
    && line != []
    && line[0] != ' '
    && line[|line| - 1] != ' '
    && forall i :: 0 <= i < |line| - 1 ==> line[i] == ' ' ==> line[i + 1] != ' '
  }

  lemma {:induction false} JoinSpaceLength(ws: seq<string>)
    requires ws != []
    ensures |JoinSpace(ws)| == TotalLength(ws) + |ws| - 1
  {
    if |ws| > 1 {
      JoinSpaceLength(ws[1..]);
    }
  }

  /** Joining words with single spaces yields a single-spaced line. */
  lemma {:induction false} JoinSpaceShape(ws: seq<string>)
    requires ws != [] && AllWords(ws)
    ensures SingleSpaced(JoinSpace(ws))
  {
    if |ws| > 1 {
      var w := ws[0];
      assert IsWord(w);
      JoinSpaceShape(ws[1..]);
      var rest := JoinSpace(ws[1..]);
      var line := w + " " + rest;
      assert line == JoinSpace(ws);
      forall i | 0 <= i < |line| - 1 && line[i] == ' '
        ensures line[i + 1] != ' '
      {
        if i == |w| {
          assert line[i + 1] == rest[0];
        } else if i > |w| {
          assert line[i] == rest[i - |w| - 1];
          assert line[i + 1] == rest[i - |w|];
        }
      }
      assert line[0] == w[0];
      assert line[|line| - 1] == rest[|rest| - 1];
    }
  }

  lemma FirstSpaceOfWord(w: string, rest: string)
    requires IsWord(w)
    ensures FirstSpace(w + rest) >= |w|
    ensures rest != [] && rest[0] == ' ' ==> FirstSpace(w + rest) == |w|
  {
    var s := w + rest;
    var n := FirstSpace(s);
    if rest != [] && rest[0] == ' ' {
      assert s[|w|] == ' ';
    }
  }

  /** Splitting a space-joined line gives back its words: the inverse of JoinSpace. */
  lemma {:induction false} WordsOfJoin(ws: seq<string>)
    requires AllWords(ws)
    ensures Words(JoinSpace(ws)) == ws
  {
    if ws == [] {
    } else if |ws| == 1 {
      var w := ws[0];
      assert IsWord(w);
      FirstSpaceOfWord(w, []);
      assert w + [] == w;
      assert w[..|w|] == w;
      assert w[|w|..] == [];
    } else {
      var w := ws[0];
      assert IsWord(w);
      var rest := JoinSpace(ws[1..]);
      var s := w + (" " + rest);
      assert s == JoinSpace(ws);
      FirstSpaceOfWord(w, " " + rest);
      assert s[0] == w[0];
      assert s[..|w|] == w;
      assert s[|w|..] == " " + rest;
      assert (" " + rest)[1..] == rest;
      WordsOfJoin(ws[1..]);
    }
  }

  // ---------------------------------------------------------------------------
  // Greedy wrapping.  A line under construction is kept as its group of words;
  // the source's `len(lines[-1])` is that group joined by spaces plus the one
  // trailing space the source appends after every word.

  /** One word of the source's loop: it starts a new line when the last line,
      a space and the word would exceed `length`, else it joins the last line. */
  function PackStep(groups: seq<seq<string>>, w: string, length: int): seq<seq<string>>
    requires |groups| > 0
  {
    var last := groups[|groups| - 1];
    if |JoinSpace(last)| + 1 + |w| > length then groups + [[w]]
    else groups[..|groups| - 1] + [last + [w]]
  }

  /** Feeds the words `ws` one at a time onto the last group of `groups`. */
  function Pack(groups: seq<seq<string>>, ws: seq<string>, length: int): (r: seq<seq<string>>)
    requires |groups| > 0
    ensures |r| > 0
    decreases |ws|
  {
    if ws == [] then groups else Pack(PackStep(groups, ws[0], length), ws[1..], length)
  }

  /** The words of `s`, grouped one group per output line. */
  function WrapGroups(s: string, length: int): seq<seq<string>> {
    var ws := Words(s);
    if ws == [] then [] else Pack([[ws[0]]], ws[1..], length)
  }

  /** `wordwrap(string, length)`. */
  function Wordwrap(s: string, length: int): (lines: seq<string>)
    ensures |lines| == |WrapGroups(s, length)|
    ensures lines == [] <==> Words(s) == []
  {
    var groups := WrapGroups(s, length);
    seq(|groups|, i requires 0 <= i < |groups| => JoinSpace(groups[i]))
  }

  /** The invariant the greedy packing keeps: groups are non-empty lists of
      words, a group of two or more words fits in `length`, and each group
      after the first was started only because its first word did not fit on
      the previous line. */
  predicate WellPacked(groups: seq<seq<string>>, length: int) {
    && (forall i :: 0 <= i < |groups| ==> groups[i] != [] && AllWords(groups[i]))
    && (forall i :: 0 <= i < |groups| && |groups[i]| >= 2 ==> |JoinSpace(groups[i])| <= length)
    && (forall i :: 1 <= i < |groups| ==> |JoinSpace(groups[i - 1])| + 1 + |groups[i][0]| > length)
  }

  lemma JoinSpaceSnoc(g: seq<string>, w: string)
    requires g != []
    ensures JoinSpace(g + [w]) == JoinSpace(g) + " " + w
    decreases |g|
  {
    if |g| == 1 {
      assert (g + [w])[1..] == [w];
    } else {
      assert (g + [w])[1..] == g[1..] + [w];
      JoinSpaceSnoc(g[1..], w);
    }
  }

  /** Flattening after appending one sublist appends its elements. */
  lemma FlattenSnoc<T>(init: seq<seq<T>>, x: seq<T>)
    ensures Flatten(init + [x]) == Flatten(init) + x
  {
    FlattenAppend(init, [x]);
    assert Flatten([x]) == x + Flatten<T>([]);
    assert x + [] == x;
  }

  /** Whichever way a step goes, the word lands after all earlier words. */
  lemma PackStepFlatten(groups: seq<seq<string>>, w: string, length: int)
    requires |groups| > 0
    ensures Flatten(PackStep(groups, w, length)) == Flatten(groups) + [w]
  {
    var n := |groups|;
    var last := groups[n - 1];
    var init := groups[..n - 1];
    if |JoinSpace(last)| + 1 + |w| > length {
      FlattenSnoc(groups, [w]);
    } else {
      assert groups == init + [last];
      FlattenSnoc(init, last);
      FlattenSnoc(init, last + [w]);
      AppendAssoc(Flatten(init), last, [w]);
    }
  }

  lemma AppendAssoc<T>(a: seq<T>, b: seq<T>, c: seq<T>)
    ensures a + (b + c) == a + b + c
  {
  }

  lemma PackStepNewLine(groups: seq<seq<string>>, w: string, length: int)
    requires |groups| > 0 && WellPacked(groups, length) && IsWord(w)
    requires |JoinSpace(groups[|groups| - 1])| + 1 + |w| > length
    ensures WellPacked(PackStep(groups, w, length), length)
  {
    var next := groups + [[w]];
    assert next == PackStep(groups, w, length);
    assert AllWords([w]);
    assert forall i :: 0 <= i < |groups| ==> next[i] == groups[i];
  }

  lemma PackStepSameLine(groups: seq<seq<string>>, w: string, length: int)
    requires |groups| > 0 && WellPacked(groups, length) && IsWord(w)
    requires |JoinSpace(groups[|groups| - 1])| + 1 + |w| <= length
    ensures WellPacked(PackStep(groups, w, length), length)
  {
    var n := |groups|;
    var last := groups[n - 1];
    var grown := last + [w];
    var next := groups[..n - 1] + [grown];
    assert next == PackStep(groups, w, length);
    JoinSpaceSnoc(last, w);
    assert |JoinSpace(grown)| <= length;
    assert AllWords(grown) by {
      forall j | 0 <= j < |grown| ensures IsWord(grown[j]) {
        if j < |last| { assert grown[j] == last[j]; }
      }
    }
    assert grown[0] == last[0];
    assert forall i :: 0 <= i < n - 1 ==> next[i] == groups[i];
  }

  lemma PackStepKeepsInvariant(groups: seq<seq<string>>, w: string, length: int)
    requires |groups| > 0 && WellPacked(groups, length) && IsWord(w)
    ensures WellPacked(PackStep(groups, w, length), length)
  {
    if |JoinSpace(groups[|groups| - 1])| + 1 + |w| > length {
      PackStepNewLine(groups, w, length);
    } else {
      PackStepSameLine(groups, w, length);
    }
  }

  /** Packing appends the words, in order, after the words already packed. */
  lemma {:induction false} PackFlatten(groups: seq<seq<string>>, ws: seq<string>, length: int)
    requires |groups| > 0
    ensures Flatten(Pack(groups, ws, length)) == Flatten(groups) + ws
    decreases |ws|
  {
    if ws == [] {
      assert Flatten(groups) + ws == Flatten(groups);
    } else {
      var next := PackStep(groups, ws[0], length);
      PackStepFlatten(groups, ws[0], length);
      PackFlatten(next, ws[1..], length);
      assert Flatten(groups) + [ws[0]] + ws[1..] == Flatten(groups) + ws;
    }
  }

  /** Packing words keeps the groups well packed. */
  lemma {:induction false} PackKeepsInvariant(groups: seq<seq<string>>, ws: seq<string>, length: int)
    requires |groups| > 0 && WellPacked(groups, length) && AllWords(ws)
    ensures WellPacked(Pack(groups, ws, length), length)
    decreases |ws|
  {
    if ws != [] {
      assert IsWord(ws[0]) && AllWords(ws[1..]) by {
        assert forall i :: 0 <= i < |ws[1..]| ==> ws[1..][i] == ws[i + 1];
      }
      PackStepKeepsInvariant(groups, ws[0], length);
      PackKeepsInvariant(PackStep(groups, ws[0], length), ws[1..], length);
    }
  }

  /** The groups behind wordwrap's lines: well packed, and together exactly the words of the input. */
  lemma WrapGroupsFacts(s: string, length: int)
    ensures WellPacked(WrapGroups(s, length), length)
    ensures Flatten(WrapGroups(s, length)) == Words(s)
  {
    var ws := Words(s);
    if ws != [] {
      var first: seq<seq<string>> := [[ws[0]]];
      assert WrapGroups(s, length) == Pack(first, ws[1..], length);
      assert WellPacked(first, length) by {
        assert AllWords([ws[0]]);
      }
      assert AllWords(ws[1..]) by {
        assert forall i :: 0 <= i < |ws[1..]| ==> ws[1..][i] == ws[i + 1];
      }
      PackKeepsInvariant(first, ws[1..], length);
      PackFlatten(first, ws[1..], length);
      assert Flatten(first) == [ws[0]] by {
        FlattenSnoc([], [ws[0]]);
        assert [] + [[ws[0]]] == first;
      }
      assert ws == [ws[0]] + ws[1..];
    }
  }

  /** The words of each output line, in line order. */
  function LineWords(lines: seq<string>): seq<seq<string>> {
    seq(|lines|, i requires 0 <= i < |lines| => Words(lines[i]))
  }

  lemma LinesAreGroups(s: string, length: int)
    ensures WellPacked(WrapGroups(s, length), length)
    ensures LineWords(Wordwrap(s, length)) == WrapGroups(s, length)
    ensures forall i :: 0 <= i < |Wordwrap(s, length)| ==>
      Wordwrap(s, length)[i] == JoinSpace(WrapGroups(s, length)[i])
  {
    var groups := WrapGroups(s, length);
    var lines := Wordwrap(s, length);
    WrapGroupsFacts(s, length);
    forall i | 0 <= i < |lines| ensures Words(lines[i]) == groups[i] {
      WordsOfJoin(groups[i]);
    }
  }

  /** Input without words gives no lines; otherwise splitting the output lines
      on spaces gives back exactly the words of the input, in order. */
  lemma {:induction false} WordwrapKeepsWords(s: string, length: int)
    ensures Words(s) == [] <==> Wordwrap(s, length) == []
    ensures Flatten(LineWords(Wordwrap(s, length))) == Words(s)
  {
    LinesAreGroups(s, length);
    WrapGroupsFacts(s, length);
  }

  /** Every output line is non-empty, has no leading or trailing space and
      separates its words by single spaces. */
  lemma {:induction false} WordwrapLineShape(s: string, length: int)
    ensures forall i :: 0 <= i < |Wordwrap(s, length)| ==> SingleSpaced(Wordwrap(s, length)[i])
  {
    LinesAreGroups(s, length);
    var groups := WrapGroups(s, length);
    forall i | 0 <= i < |Wordwrap(s, length)| ensures SingleSpaced(Wordwrap(s, length)[i]) {
      JoinSpaceShape(groups[i]);
    }
  }

  lemma WordInJoin(g: seq<string>, j: nat)
    requires j < |g|
    ensures |JoinSpace(g)| >= |g[j]| + |g| - 1
  {
    JoinSpaceLength(g);
    TotalLengthAtLeast(g, j);
  }

  lemma TotalLengthAtLeast(g: seq<string>, j: nat)
    requires j < |g|
    ensures TotalLength(g) >= |g[j]|
    decreases |g|
  {
    if j > 0 {
      TotalLengthAtLeast(g[1..], j - 1);
    }
  }

  /** A line of two or more words fits in `length`; a word longer than
      `length` sits alone on its line. */
  lemma {:induction false} WordwrapFits(s: string, length: int)
    ensures forall i :: 0 <= i < |Wordwrap(s, length)| && |Words(Wordwrap(s, length)[i])| >= 2 ==>
      |Wordwrap(s, length)[i]| <= length
    ensures forall i, j ::
      (0 <= i < |Wordwrap(s, length)| && 0 <= j < |Words(Wordwrap(s, length)[i])| &&
       |Words(Wordwrap(s, length)[i])[j]| > length) ==> |Words(Wordwrap(s, length)[i])| == 1
  {
    LinesAreGroups(s, length);
    var groups := WrapGroups(s, length);
    var lines := Wordwrap(s, length);
    forall i, j | 0 <= i < |lines| && 0 <= j < |Words(lines[i])| && |Words(lines[i])[j]| > length
      ensures |Words(lines[i])| == 1
    {
      assert Words(lines[i]) == groups[i];
      WordInJoin(groups[i], j);
    }
  }

  /** Breaking is greedy: a line after the first starts only because the
      previous line, a space and its first word would exceed `length`. */
  lemma {:induction false} WordwrapGreedy(s: string, length: int)
    ensures forall i :: 0 <= i < |Wordwrap(s, length)| ==> Words(Wordwrap(s, length)[i]) != []
    ensures forall i :: 1 <= i < |Wordwrap(s, length)| ==>
      |Wordwrap(s, length)[i - 1]| + 1 + |Words(Wordwrap(s, length)[i])[0]| > length
  {
    LinesAreGroups(s, length);
  }
}
