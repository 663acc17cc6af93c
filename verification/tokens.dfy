/** The token engine of src/lib/kiro.py: `string_to_tokens`,
    `normalize_tokens`, `tokens_to_indices`, `index_to_token` and
    `detect_wrong_keyset`.  The table-level functions take the glyph table
    itself; the `...For` functions take a keyset and its parent and fail
    exactly where the source would touch an unusable table. */
module Tokens {
  import opened Results
  import Ascii
  import opened Keysets
  import Util

  /** A token is a glyph string, or None for a gap. */
  type Token = Option<string>

  // ---------------------------------------------------------------------------
  // string_to_tokens: a left-to-right scanner

  /** Scanner state invariant: inside a bracket the last token is the open one. */
  predicate OpenTokenLast(tokens: seq<Token>, inLong: bool) {
    inLong ==> |tokens| > 0 && tokens[|tokens| - 1].Some?
  }

  /** The tokens the scanner has finished: all of them, except the open
      one inside a bracket. */
  function Closed(tokens: seq<Token>, inLong: bool): nat
    requires OpenTokenLast(tokens, inLong)
  {
    if inLong then |tokens| - 1 else |tokens|
  }

  /** One iteration of the scanner's loop over characters. */
  function ScanChar(tokens: seq<Token>, inLong: bool, c: char, spaceToNone: bool): (r: (seq<Token>, bool))
    requires OpenTokenLast(tokens, inLong)
    ensures OpenTokenLast(r.0, r.1)
  {
    if c == '[' && !inLong then (tokens + [Some("")], true)
    else if c == ' ' && spaceToNone && !inLong then (tokens + [None], false)
    else if c == ']' && inLong then (tokens, false)
    else if inLong then (tokens[..|tokens| - 1] + [Some(tokens[|tokens| - 1].value + [c])], true)
    else (tokens + [Some([c])], false)
  }

  function Scan(chars: string, spaceToNone: bool, tokens: seq<Token>, inLong: bool): seq<Token>
    requires OpenTokenLast(tokens, inLong)
    decreases |chars|
  {
    if chars == [] then tokens
    else
      var next := ScanChar(tokens, inLong, chars[0], spaceToNone);
      Scan(chars[1..], spaceToNone, next.0, next.1)
  }

  /** One iteration appends at most one token and never changes a finished
      one. */
  lemma ScanCharKeepsClosed(tokens: seq<Token>, inLong: bool, c: char, spaceToNone: bool)
    requires OpenTokenLast(tokens, inLong)
    ensures var r := ScanChar(tokens, inLong, c, spaceToNone);
      && |r.0| <= |tokens| + 1
      && Closed(tokens, inLong) <= Closed(r.0, r.1)
      && r.0[..Closed(tokens, inLong)] == tokens[..Closed(tokens, inLong)]
  {
  }

  /** The scanner's loop over the remaining characters adds at most one
      token per character and leaves the finished tokens as they are. */
  lemma {:induction false} ScanKeepsClosed(chars: string, spaceToNone: bool, tokens: seq<Token>, inLong: bool)
    requires OpenTokenLast(tokens, inLong)
    ensures var r := Scan(chars, spaceToNone, tokens, inLong);
      && |r| <= |tokens| + |chars|
      && Closed(tokens, inLong) <= |r| && r[..Closed(tokens, inLong)] == tokens[..Closed(tokens, inLong)]
    decreases |chars|
  {
    if chars != [] {
      var next := ScanChar(tokens, inLong, chars[0], spaceToNone);
      ScanCharKeepsClosed(tokens, inLong, chars[0], spaceToNone);
      ScanKeepsClosed(chars[1..], spaceToNone, next.0, next.1);
      var r := Scan(chars[1..], spaceToNone, next.0, next.1);
      var n, m := Closed(tokens, inLong), Closed(next.0, next.1);
      assert r[..n] == r[..m][..n] == next.0[..m][..n] == next.0[..n];
    }
  }

  /** `string_to_tokens(characters, space_to_none)`. */
  function StringToTokens(characters: string, spaceToNone: bool): (tokens: seq<Token>)
    ensures |tokens| <= |characters|
    ensures !spaceToNone ==> forall i :: 0 <= i < |tokens| ==> tokens[i].Some?
  {
    ScanIsLex(characters, spaceToNone, []);
    LexBounds(characters, spaceToNone);
    Scan(characters, spaceToNone, [], false)
  }

  // A reference grammar for the scanner: a `[` opens a token that runs to the
  // first `]` (or the end of input); any other character is a token of its
  // own, except an unbracketed space when spaces are gaps.

  /** Index of the first `]` of `s`, or `|s|` when there is none. */
  function FindClose(s: string): (j: nat)
    ensures j <= |s|
    ensures forall k :: 0 <= k < j ==> s[k] != ']'
    ensures j < |s| ==> s[j] == ']'
  {
    if s == [] || s[0] == ']' then 0 else 1 + FindClose(s[1..])
  }

  function Lex(s: string, spaceToNone: bool): seq<Token>
    decreases |s|
  {
    if s == [] then []
    else if s[0] == '[' then
      var j := FindClose(s[1..]);
      if 1 + j < |s| then [Some(s[1..1 + j])] + Lex(s[j + 2..], spaceToNone)
      else [Some(s[1..])]
    else if s[0] == ' ' && spaceToNone then [None] + Lex(s[1..], spaceToNone)
    else [Some([s[0]])] + Lex(s[1..], spaceToNone)
  }

  /** Inside an open bracket the scanner extends the open token up to the first `]`. */
  lemma {:induction false} ScanInBracket(chars: string, spaceToNone: bool, acc: seq<Token>, p: string)
    ensures Scan(chars, spaceToNone, acc + [Some(p)], true) ==
      (var j := FindClose(chars);
       if j < |chars| then Scan(chars[j + 1..], spaceToNone, acc + [Some(p + chars[..j])], false)
       else acc + [Some(p + chars)])
    decreases |chars|
  {
    var tokens := acc + [Some(p)];
    if chars == [] {
      assert p + chars == p;
    } else if chars[0] == ']' {
      assert ScanChar(tokens, true, chars[0], spaceToNone) == (tokens, false);
      assert chars[..0] == [];
      assert p + chars[..0] == p;
    } else {
      var c := chars[0];
      assert tokens[..|tokens| - 1] == acc;
      assert ScanChar(tokens, true, c, spaceToNone) == (acc + [Some(p + [c])], true);
      ScanInBracket(chars[1..], spaceToNone, acc, p + [c]);
      var j := FindClose(chars);
      assert j == 1 + FindClose(chars[1..]);
      if j < |chars| {
        assert chars[1..][j - 1 + 1..] == chars[j + 1..];
        assert p + [c] + chars[1..][..j - 1] == p + chars[..j];
      } else {
        assert p + [c] + chars[1..] == p + chars;
      }
    }
  }

  /** The scanner, started outside a bracket, appends exactly the tokens of the reference grammar. */
  lemma {:induction false} ScanIsLex(chars: string, spaceToNone: bool, acc: seq<Token>)
    ensures Scan(chars, spaceToNone, acc, false) == acc + Lex(chars, spaceToNone)
    decreases |chars|
  {
    if chars == [] {
      assert acc + [] == acc;
    } else if chars[0] == '[' {
      ScanIsLexBracket(chars, spaceToNone, acc);
    } else if chars[0] == ' ' && spaceToNone {
      ScanIsLex(chars[1..], spaceToNone, acc + [None]);
    } else {
      ScanIsLex(chars[1..], spaceToNone, acc + [Some([chars[0]])]);
    }
  }

  lemma {:induction false} ScanIsLexBracket(chars: string, spaceToNone: bool, acc: seq<Token>)
    requires chars != [] && chars[0] == '['
    ensures Scan(chars, spaceToNone, acc, false) == acc + Lex(chars, spaceToNone)
    decreases |chars|, 0
  {
    assert ScanChar(acc, false, '[', spaceToNone) == (acc + [Some("")], true);
    assert Scan(chars, spaceToNone, acc, false) == Scan(chars[1..], spaceToNone, acc + [Some("")], true);
    ScanInBracket(chars[1..], spaceToNone, acc, "");
    var j := FindClose(chars[1..]);
    var body := chars[1..1 + j];
    assert "" + chars[1..][..j] == body;
    if 1 + j < |chars| {
      assert chars[1..][j + 1..] == chars[j + 2..];
      assert Lex(chars, spaceToNone) == [Some(body)] + Lex(chars[j + 2..], spaceToNone);
      ScanIsLex(chars[j + 2..], spaceToNone, acc + [Some(body)]);
    } else {
      assert "" + chars[1..] == chars[1..];
      assert Lex(chars, spaceToNone) == [Some(chars[1..])];
    }
  }

  lemma {:induction false} LexBounds(s: string, spaceToNone: bool)
    ensures |Lex(s, spaceToNone)| <= |s|
    ensures !spaceToNone ==> forall i :: 0 <= i < |Lex(s, spaceToNone)| ==> Lex(s, spaceToNone)[i].Some?
    decreases |s|
  {
    if s == [] {
    } else if s[0] == '[' {
      var j := FindClose(s[1..]);
      if 1 + j < |s| {
        LexBounds(s[j + 2..], spaceToNone);
        assert Lex(s, spaceToNone) == [Some(s[1..1 + j])] + Lex(s[j + 2..], spaceToNone);
      }
    } else if s[0] == ' ' && spaceToNone {
      LexBounds(s[1..], spaceToNone);
    } else {
      LexBounds(s[1..], spaceToNone);
      assert Lex(s, spaceToNone) == [Some([s[0]])] + Lex(s[1..], spaceToNone);
    }
  }

  /** Without `[` and with spaces kept, every character is one token, in order. */
  lemma {:induction false} OneTokenPerCharacter(s: string)
    requires forall i :: 0 <= i < |s| ==> s[i] != '['
    ensures StringToTokens(s, false) == seq(|s|, i requires 0 <= i < |s| => Some([s[i]]))
  {
    ScanIsLex(s, false, []);
    LexPlain(s);
  }

  lemma {:induction false} LexPlain(s: string)
    requires forall i :: 0 <= i < |s| ==> s[i] != '['
    ensures Lex(s, false) == seq(|s|, i requires 0 <= i < |s| => Some([s[i]]))
    decreases |s|
  {
    if s != [] {
      LexPlain(s[1..]);
    }
  }

  /** A `[` outside a bracket opens a token that absorbs everything, `[` and
      spaces included, up to the next `]`, which is consumed and emits nothing. */
  lemma {:induction false} BracketedToken(body: string, rest: string, spaceToNone: bool)
    requires forall i :: 0 <= i < |body| ==> body[i] != ']'
    ensures StringToTokens("[" + body + "]" + rest, spaceToNone) ==
      [Some(body)] + StringToTokens(rest, spaceToNone)
  {
    var s := "[" + body + "]" + rest;
    ScanIsLex(s, spaceToNone, []);
    ScanIsLex(rest, spaceToNone, []);
    assert s[0] == '[';
    assert s[1..] == body + ("]" + rest);
    FindCloseAt(body, "]" + rest);
    assert s[1..][..|body|] == body;
    assert s[1..1 + |body|] == s[1..][..|body|];
    assert s[|body| + 2..] == rest;
  }

  /** An unterminated bracket absorbs the rest of the input. */
  lemma {:induction false} UnterminatedBracket(body: string, spaceToNone: bool)
    requires forall i :: 0 <= i < |body| ==> body[i] != ']'
    ensures StringToTokens("[" + body, spaceToNone) == [Some(body)]
  {
    var s := "[" + body;
    ScanIsLex(s, spaceToNone, []);
    assert s[0] == '[';
    assert s[1..] == body;
    FindCloseAt(body, []);
    assert body + [] == body;
    assert s[1..1 + |body|] == body;
  }

  /** Outside a bracket, any character but `[` is a token of its own; a space
      is a gap exactly when spaces are gaps, and a stray `]` is an ordinary token. */
  lemma {:induction false} SingleCharacterToken(c: char, rest: string, spaceToNone: bool)
    requires c != '['
    ensures StringToTokens([c] + rest, spaceToNone) ==
      (if c == ' ' && spaceToNone then [None] else [Some([c])]) + StringToTokens(rest, spaceToNone)
  {
    ScanIsLex([c] + rest, spaceToNone, []);
    ScanIsLex(rest, spaceToNone, []);
    assert ([c] + rest)[1..] == rest;
  }

  lemma FindCloseAt(body: string, tail: string)
    requires forall i :: 0 <= i < |body| ==> body[i] != ']'
    requires tail == [] || tail[0] == ']'
    ensures FindClose(body + tail) == |body|
  {
    var s := body + tail;
    if tail != [] {
      assert s[|body|] == tail[0];
    }
  }

  // ---------------------------------------------------------------------------
  // normalize_tokens

  /** The first of `token`, its upper case and its lower case that is in the table. */
  function MatchToken(token: string, table: KeyTable): (m: Option<string>)
    ensures m.Some? ==> Some(m.value) in table
    ensures m.Some? ==> m.value == token || m.value == Ascii.Upper(token) || m.value == Ascii.Lower(token)
    ensures Some(token) in table ==> m == Some(token)
    ensures m.None? <==>
      (Some(token) !in table && Some(Ascii.Upper(token)) !in table && Some(Ascii.Lower(token)) !in table)
  {
    if Some(token) in table then Some(token)
    else if Some(Ascii.Upper(token)) in table then Some(Ascii.Upper(token))
    else if Some(Ascii.Lower(token)) in table then Some(Ascii.Lower(token))
    else None
  }

  /** A gap, or a token one of whose case variants is in the table. */
  predicate Matches(t: Token, table: KeyTable) {
    t.None? || MatchToken(t.value, table).Some?
  }

  predicate AllMatch(tokens: seq<Token>, table: KeyTable) {
    forall i :: 0 <= i < |tokens| ==> Matches(tokens[i], table)
  }

  function CountGaps(tokens: seq<Token>): nat {
    if tokens == [] then 0 else (if tokens[0].None? then 1 else 0) + CountGaps(tokens[1..])
  }

  lemma {:induction false} CountGapsAppend(a: seq<Token>, b: seq<Token>)
    ensures CountGaps(a + b) == CountGaps(a) + CountGaps(b)
  {
    if a == [] {
      assert a + b == b;
    } else {
      assert (a + b)[1..] == a[1..] + b;
      CountGapsAppend(a[1..], b);
    }
  }

  /** What one token becomes: a gap stays a gap, a token its first matching
      case variant, and a token with no match nothing. */
  function NormalizeOne(t: Token, table: KeyTable): seq<Token> {
    if t.None? then [None]
    else match MatchToken(t.value, table)
      case Some(v) => [Some(v)]
      case None => []
  }

  /** `normalize_tokens` over a table: gaps are kept, a token becomes its
      first matching case variant, a token with no match is dropped. */
  function NormalizeTokens(tokens: seq<Token>, table: KeyTable): (r: seq<Token>)
    ensures |r| <= |tokens|
    ensures |r| == |tokens| <==> AllMatch(tokens, table)
    ensures forall i :: 0 <= i < |r| && r[i].Some? ==> r[i] in table
    ensures CountGaps(r) == CountGaps(tokens)
  {
    if tokens == [] then []
    else
      var head := NormalizeOne(tokens[0], table);
      var tail := NormalizeTokens(tokens[1..], table);
      assert AllMatch(tokens, table) <==> Matches(tokens[0], table) && AllMatch(tokens[1..], table) by {
        if Matches(tokens[0], table) && AllMatch(tokens[1..], table) {
          forall i | 0 <= i < |tokens| ensures Matches(tokens[i], table) {
            if i > 0 { assert tokens[i] == tokens[1..][i - 1]; }
          }
        }
      }
      CountGapsAppend(head, tail);
      head + tail
  }

  /** Normalisation distributes over concatenation, so it preserves the
      relative order of everything it keeps. */
  lemma {:induction false} NormalizeAppend(a: seq<Token>, b: seq<Token>, table: KeyTable)
    ensures NormalizeTokens(a + b, table) == NormalizeTokens(a, table) + NormalizeTokens(b, table)
  {
    if a == [] {
      assert a + b == b;
    } else {
      var ab := a + b;
      assert ab[0] == a[0] && ab[1..] == a[1..] + b;
      assert NormalizeTokens(a, table) == NormalizeOne(a[0], table) + NormalizeTokens(a[1..], table);
      assert NormalizeTokens(ab, table) == NormalizeOne(a[0], table) + NormalizeTokens(a[1..] + b, table);
      NormalizeAppend(a[1..], b, table);
      Util.AppendAssoc(NormalizeOne(a[0], table), NormalizeTokens(a[1..], table), NormalizeTokens(b, table));
    }
  }

  /** When every token matches, the output lines up with the input: gaps stay
      gaps and each token becomes a case variant of itself found in the table. */
  lemma {:induction false} NormalizePointwise(tokens: seq<Token>, table: KeyTable)
    requires AllMatch(tokens, table)
    ensures |NormalizeTokens(tokens, table)| == |tokens|
    ensures forall i :: 0 <= i < |tokens| ==>
      var r := NormalizeTokens(tokens, table)[i];
      && (r.None? <==> tokens[i].None?)
      && (r.Some? ==> r in table && r.value in [tokens[i].value, Ascii.Upper(tokens[i].value), Ascii.Lower(tokens[i].value)])
  {
    if tokens != [] {
      assert AllMatch(tokens[1..], table) by {
        forall i | 0 <= i < |tokens[1..]| ensures Matches(tokens[1..][i], table) {
          assert tokens[1..][i] == tokens[i + 1];
        }
      }
      assert Matches(tokens[0], table);
      NormalizePointwise(tokens[1..], table);
    }
  }

  /** Normalising twice changes nothing: normalised tokens are table entries. */
  lemma {:induction false} NormalizeIdempotent(tokens: seq<Token>, table: KeyTable)
    ensures NormalizeTokens(NormalizeTokens(tokens, table), table) == NormalizeTokens(tokens, table)
  {
    var r := NormalizeTokens(tokens, table);
    NormalizeFixesTableTokens(r, table);
  }

  lemma {:induction false} NormalizeFixesTableTokens(tokens: seq<Token>, table: KeyTable)
    requires forall i :: 0 <= i < |tokens| && tokens[i].Some? ==> tokens[i] in table
    ensures NormalizeTokens(tokens, table) == tokens
  {
    if tokens != [] {
      NormalizeFixesTableTokens(tokens[1..], table);
    }
  }

  // ---------------------------------------------------------------------------
  // tokens_to_indices and index_to_token

  /** `table.index(token)`: the first position holding the token. */
  function FirstIndex(table: KeyTable, token: string): (p: Option<nat>)
    ensures p.Some? ==> p.value < |table| && table[p.value] == Some(token)
    ensures p.Some? ==> forall q :: 0 <= q < p.value ==> table[q] != Some(token)
    ensures p.None? <==> Some(token) !in table
  {
    Util.IndexOf(table, Some(token))
  }

  /** `tokens_to_indices` over a table: gaps stay gaps, a token becomes its
      first position, a token not in the table is dropped. */
  function TokensToIndices(tokens: seq<Token>, table: KeyTable): (r: seq<Option<nat>>)
    ensures |r| <= |tokens|
    ensures |r| == |tokens| <==> forall i :: 0 <= i < |tokens| && tokens[i].Some? ==> tokens[i] in table
    ensures forall i :: 0 <= i < |r| && r[i].Some? ==> r[i].value < |table| && table[r[i].value].Some?
  {
    if tokens == [] then []
    else
      var head: seq<Option<nat>> :=
        if tokens[0].None? then [None]
        else match FirstIndex(table, tokens[0].value)
          case Some(p) => [Some(p)]
          case None => [];
      var tail := TokensToIndices(tokens[1..], table);
      assert (forall i :: 0 <= i < |tokens| && tokens[i].Some? ==> tokens[i] in table) <==>
             ((tokens[0].Some? ==> tokens[0] in table) &&
              (forall i :: 0 <= i < |tokens[1..]| && tokens[1..][i].Some? ==> tokens[1..][i] in table)) by {
        forall i | 0 <= i < |tokens[1..]| ensures tokens[1..][i] == tokens[i + 1] { }
      }
      head + tail
  }

  /** `index_to_token` over a table, with Python indexing: an index at or past
      the end gives None, a negative index counts from the end, and one before
      the start raises. */
  function IndexToToken(table: KeyTable, index: int): (r: Result<Option<string>, Error>)
    ensures index >= |table| ==> r == Ok(None)
    ensures 0 <= index < |table| ==> r == Ok(table[index])
    ensures -|table| <= index < 0 ==> r == Ok(table[|table| + index])
    ensures r.Err? <==> index < -|table|
  {
    if |table| > index then
      if index >= 0 then Ok(table[index])
      else if index >= -|table| then Ok(table[|table| + index])
      else Err(IndexOutOfRange)
    else Ok(None)
  }

  /** Index round trip: when every token is in the table, each index maps back
      to its token and gaps stay in place. */
  lemma {:induction false} IndicesRoundTrip(tokens: seq<Token>, table: KeyTable)
    requires forall i :: 0 <= i < |tokens| && tokens[i].Some? ==> tokens[i] in table
    ensures |TokensToIndices(tokens, table)| == |tokens|
    ensures forall i :: 0 <= i < |tokens| ==>
      var r := TokensToIndices(tokens, table)[i];
      && (r.None? <==> tokens[i].None?)
      && (r.Some? ==> IndexToToken(table, r.value) == Ok(tokens[i]))
  {
    if tokens != [] {
      IndicesRoundTrip(tokens[1..], table);
      var r := TokensToIndices(tokens, table);
      assert r[1..] == TokensToIndices(tokens[1..], table);
      forall i | 1 <= i < |tokens| ensures tokens[i] == tokens[1..][i - 1] && r[i] == r[1..][i - 1] { }
    }
  }

  /** The text-to-index pipeline: normalised tokens always map to indices and back. */
  lemma NormalizedTokensRoundTrip(tokens: seq<Token>, table: KeyTable)
    ensures |TokensToIndices(NormalizeTokens(tokens, table), table)| == |NormalizeTokens(tokens, table)|
    ensures forall i :: 0 <= i < |NormalizeTokens(tokens, table)| ==>
      var t := NormalizeTokens(tokens, table)[i];
      var r := TokensToIndices(NormalizeTokens(tokens, table), table)[i];
      && (r.None? <==> t.None?)
      && (r.Some? ==> IndexToToken(table, r.value) == Ok(t))
  {
    IndicesRoundTrip(NormalizeTokens(tokens, table), table);
  }

  // ---------------------------------------------------------------------------
  // detect_wrong_keyset

  /** The tokens the mismatch heuristic looks at: all but " ", "[" and "]". */
  function Significant(tokens: seq<Token>): (r: seq<Token>)
    ensures |r| <= |tokens|
    ensures forall i :: 0 <= i < |r| ==> r[i] !in [Some(" "), Some("["), Some("]")]
    ensures forall i :: 0 <= i < |tokens| && tokens[i] !in [Some(" "), Some("["), Some("]")] ==> tokens[i] in r
    ensures forall i :: 0 <= i < |r| ==> r[i] in tokens
  {
    if tokens == [] then []
    else
      var tail := Significant(tokens[1..]);
      assert forall i :: 1 <= i < |tokens| ==> tokens[i] == tokens[1..][i - 1];
      if tokens[0] in [Some(" "), Some("["), Some("]")] then tail else [tokens[0]] + tail
  }

  /** `detect_wrong_keyset` over a table: true exactly when some significant
      token of the unbracketed-space tokenisation has no case variant in the table. */
  function DetectWrongKeyset(s: string, table: KeyTable): (wrong: bool)
    ensures wrong <==> !AllMatch(Significant(StringToTokens(s, false)), table)
  {
    var tokens := Significant(StringToTokens(s, false));
    |tokens| > |NormalizeTokens(tokens, table)|
  }

  // ---------------------------------------------------------------------------
  // The same operations on a keyset.  The source reads `keyset.keys` only when
  // it meets a token that is not a gap (or, in `index_to_token`, always), so
  // an unusable table is an error only then.

  predicate AllGaps(tokens: seq<Token>) {
    forall i :: 0 <= i < |tokens| ==> tokens[i].None?
  }

  /** `normalize_tokens(tokens, keyset)`. */
  function NormalizeTokensFor(tokens: seq<Token>, ks: Keyset, parent: Option<MetaData>): (r: Result<seq<Token>, Error>)
    ensures AllGaps(tokens) ==> r == Ok(tokens)
    ensures !AllGaps(tokens) ==> (r.Ok? <==> Table(ks, parent).Ok?)
    ensures r.Ok? && Table(ks, parent).Ok? ==> r.value == NormalizeTokens(tokens, Table(ks, parent).value)
  {
    if AllGaps(tokens) then
      NormalizeFixesTableTokens(tokens, []);
      NormalizeFixesTableTokens(tokens, if Table(ks, parent).Ok? then Table(ks, parent).value else []);
      Ok(tokens)
    else
      var table :- Table(ks, parent);
      Ok(NormalizeTokens(tokens, table))
  }

  /** `tokens_to_indices(tokens, keyset)`. */
  function TokensToIndicesFor(tokens: seq<Token>, ks: Keyset, parent: Option<MetaData>): (r: Result<seq<Option<nat>>, Error>)
    ensures AllGaps(tokens) ==> r.Ok? && |r.value| == |tokens| && forall i :: 0 <= i < |tokens| ==> r.value[i].None?
    ensures !AllGaps(tokens) ==> (r.Ok? <==> Table(ks, parent).Ok?)
    ensures r.Ok? && Table(ks, parent).Ok? ==> r.value == TokensToIndices(tokens, Table(ks, parent).value)
  {
    if AllGaps(tokens) then
      GapIndices(tokens, []);
      if Table(ks, parent).Ok? then GapIndices(tokens, Table(ks, parent).value); Ok(TokensToIndices(tokens, []))
      else Ok(TokensToIndices(tokens, []))
    else
      var table :- Table(ks, parent);
      Ok(TokensToIndices(tokens, table))
  }

  lemma {:induction false} GapIndices(tokens: seq<Token>, table: KeyTable)
    requires AllGaps(tokens)
    ensures TokensToIndices(tokens, table) == seq(|tokens|, i => None)
  {
    if tokens != [] {
      GapIndices(tokens[1..], table);
    }
  }

  /** `index_to_token(index, keyset)`: always reads the table. */
  function IndexToTokenFor(index: int, ks: Keyset, parent: Option<MetaData>): (r: Result<Option<string>, Error>)
    ensures Table(ks, parent).Err? ==> r == Err(Table(ks, parent).error)
    ensures Table(ks, parent).Ok? ==> r == IndexToToken(Table(ks, parent).value, index)
  {
    var table :- Table(ks, parent);
    IndexToToken(table, index)
  }

  /** `detect_wrong_keyset(string, keyset)`. */
  function DetectWrongKeysetFor(s: string, ks: Keyset, parent: Option<MetaData>): (r: Result<bool, Error>)
    ensures Significant(StringToTokens(s, false)) == [] ==> r == Ok(false)
    ensures Significant(StringToTokens(s, false)) != [] ==> (r.Ok? <==> Table(ks, parent).Ok?)
    ensures r.Ok? && Table(ks, parent).Ok? ==> (r.value <==> DetectWrongKeyset(s, Table(ks, parent).value))
  {
    var tokens := Significant(StringToTokens(s, false));
    if tokens == [] then Ok(false)
    else
      var table :- Table(ks, parent);
      Ok(DetectWrongKeyset(s, table))
  }

  // ---------------------------------------------------------------------------
  // Examples

  /** Plain characters are one token each. */
  lemma TokenizePlainExample()
    ensures StringToTokens("AB", false) == [Some("A"), Some("B")]
  {
    assert "AB" == ['A'] + "B";
    assert "B" == ['B'] + "";
    ScanIsLex("", false, []);
    SingleCharacterToken('B', "", false);
    SingleCharacterToken('A', "B", false);
  }

  /** A bracketed name is one token. */
  lemma TokenizeBracketExample()
    ensures StringToTokens("[Enter]X", false) == [Some("Enter"), Some("X")]
  {
    assert "[Enter]X" == "[" + "Enter" + "]" + "X";
    assert "X" == ['X'] + "";
    ScanIsLex("", false, []);
    SingleCharacterToken('X', "", false);
    BracketedToken("Enter", "X", false);
  }

  /** An unbracketed space is a gap when spaces are gaps. */
  lemma TokenizeSpaceExample()
    ensures StringToTokens("A B", true) == [Some("A"), None, Some("B")]
  {
    assert "A B" == ['A'] + " B";
    assert " B" == [' '] + "B";
    assert "B" == ['B'] + "";
    ScanIsLex("", true, []);
    SingleCharacterToken('B', "", true);
    SingleCharacterToken(' ', "B", true);
    SingleCharacterToken('A', " B", true);
  }

  /** An empty pair of brackets is one empty token. */
  lemma TokenizeEmptyBracketExample()
    ensures StringToTokens("[]", false) == [Some("")]
  {
    assert "[]" == "[" + "" + "]" + "";
    ScanIsLex("", false, []);
    BracketedToken("", "", false);
  }

  /** With the table ["a", "b", "c"], the text "ABC" maps to indices 0, 1, 2. */
  lemma LowercaseTableExample()
    ensures TokensToIndices(NormalizeTokens(StringToTokens("ABC", false), [Some("a"), Some("b"), Some("c")]),
                            [Some("a"), Some("b"), Some("c")]) == [Some(0), Some(1), Some(2)]
  {
    ExampleTokens();
    ExampleNormalized();
    ExampleIndices();
  }

  lemma ExampleTokens()
    ensures StringToTokens("ABC", false) == [Some("A"), Some("B"), Some("C")]
  {
    OneTokenPerCharacter("ABC");
  }

  lemma ExampleNormalized()
    ensures NormalizeTokens([Some("A"), Some("B"), Some("C")], [Some("a"), Some("b"), Some("c")])
      == [Some("a"), Some("b"), Some("c")]
  {
    var table: KeyTable := [Some("a"), Some("b"), Some("c")];
    LowerMatch('A', 'a', table);
    LowerMatch('B', 'b', table);
    LowerMatch('C', 'c', table);
    NormalizeAppend([Some("B")], [Some("C")], table);
    NormalizeAppend([Some("A")], [Some("B")] + [Some("C")], table);
    assert [Some("A")] + ([Some("B")] + [Some("C")]) == [Some("A"), Some("B"), Some("C")];
  }

  lemma ExampleIndices()
    ensures TokensToIndices([Some("a"), Some("b"), Some("c")], [Some("a"), Some("b"), Some("c")])
      == [Some(0), Some(1), Some(2)]
  {
    var table: KeyTable := [Some("a"), Some("b"), Some("c")];
    var normal: seq<Token> := [Some("a"), Some("b"), Some("c")];
    IndicesRoundTrip(normal, table);
    var r := TokensToIndices(normal, table);
    assert r[0] == Some(0);
    assert r[1] == Some(1) by { assert table[1] == Some("b"); }
    assert r[2] == Some(2) by { assert table[2] == Some("c"); }
  }

  lemma LowerMatch(upper: char, lower: char, table: KeyTable)
    requires 'A' <= upper <= 'Z' && lower as int == upper as int + 32
    requires Some([upper]) !in table && Some([lower]) in table
    ensures NormalizeTokens([Some([upper])], table) == [Some([lower])]
  {
    assert Ascii.Upper([upper]) == [upper];
    assert Ascii.Lower([upper]) == [lower];
  }
}
