# kiro keycap-legend pipeline — a Dafny model of its core

Kiro turns a string of legend text into keycap objects: the text is cut
into tokens (`[Enter]` is one token), each token is matched against a
keyset's glyph table (trying it as written, upper-cased, lower-cased), the
matches become glyph indices, and a template keycap is copied once per index
along an axis. Keysets come from a `.kiro.json` metadata file that sits next
to the legend image. A keyset may borrow another keyset's table through
`alt_for`. A small time-to-live cache keeps loaded files and layouts.

This project models that core as pure Dafny functions over immutable data:

| file | module | source |
|---|---|---|
| results.dfy | `Results` | `Option`, `Result` and the error causes (Python exceptions become `Err`) |
| ascii.dfy | `Ascii` | `str.upper()` / `str.lower()` on ASCII letters |
| keysets.dfy | `Keysets` | `KiroKeyset`, its `keys` property and the parent wiring of `KiroMetaData` (src/lib/types.py) |
| metadata.dfy | `Metadata` | `_normalize_keys` and `_dict_to_instance` over a JSON datatype (src/lib/metadata.py) |
| tokens.dfy | `Tokens` | `string_to_tokens`, `normalize_tokens`, `tokens_to_indices`, `index_to_token`, `detect_wrong_keyset` (src/lib/kiro.py) |
| layouts.dfy | `Layouts` | `get_layout` and `layout_sequence` with Python's slice rules (src/lib/kiro.py) |
| paths.dfy | `Paths` | the basename rewrite `image.png` → `image.kiro.json` (src/lib/kiro.py) |
| ttl_cache.dfy | `TtlCache` | `Cache` and `CacheItem` with the clock as a parameter (src/lib/cache.py) |
| typeset.dfy | `Typeset` | `extend_from_original` and `_make_guide_wire` as a placement plan (src/lib/typeset.py) |
| util.dfy | `Util` | `flatten` and the greedy `wordwrap` (src/lib/util.py) |

Modelling choices:

- **Parent reference.** A keyset's `parent` back-reference is not stored. The owning metadata is passed to `Keysets.Keys` as an `Option<MetaData>`, and `None` is a parent that was never set.
- **Glyph tables.** A table is `seq<Option<string>>`, with `None` for a blank cell.
- **Unusable tables.** A `None` table used as a list raises in Python. The keyset-level functions return `Err(NoTable)` there, but only where the source actually touches the table.
- **JSON.** A JSON object is its list of members in document order, which is the order a Python `dict` iterates in.
- **Clock.** Each read of `time()` becomes an argument: `now` for a lookup, and for `get_or_resolve` a second one, `resolvedAt`, for the moment the resolved item is born. A cache operation returns the new cache instead of mutating it.
- **Blender side effects.** `extend_from_original` copies objects, links them into a collection and builds a mesh. The model returns a `Typeset.Plan` instead: where each object goes, its `keycap` tag, its parent vertex, and the wire's points and edges.
- **Layouts.** The layouts table that `layouts()` loads from `layouts.json` is a parameter.

Where the code does something other than what its own annotations or names suggest, the model follows the code:

- `KiroKeyset.keys` of an `alt_for` keyset never hands back the target's table, although the getter's annotation `-> list[str]` (src/lib/types.py:32) promises a table.
  - If the target is missing, it returns `[]` with a warning.
  - If the target is a root keyset, the getter runs off its end and returns `None` (src/lib/types.py:31-43).
  - `Keysets.AltForResolution` states all three cases.
- `get_or_resolve` stores with `item_lifetime`, else the cache's own lifetime, not the call's `lifetime` argument (src/lib/cache.py:65). The `lifetime` argument of `get_or_raise` is computed and never used (src/lib/cache.py:45).
- An unknown axis letter in `direction` raises `KeyError`, which `extend_from_original` does not catch (it catches only `IndexError`). It is an error (`UnknownAxis`), not a soft fallback to `+x`.
- A document without `description` raises `KeyError` in `_dict_to_instance`, so `description` is required by the loader even though `KiroMetaData` accepts `description: str | None` (src/lib/types.py:10).
- `extend_from_original` has no `labels` parameter and renames nothing.

## Model

| member | source | states |
|---|---|---|
| Paths.KiroJsonName | src/lib/kiro.py:48 | if the basename has a dot followed by one or more non-dot characters running to its end, the result is the text before that dot plus `.kiro.json`; a name with no such dot is returned unchanged |
| Paths.ReplacesExtension | src/lib/kiro.py:48 | for a stem and a non-empty, dot-free extension, `stem.ext` becomes `stem.kiro.json`, and any dots inside the stem are kept |
| Paths.NoExtension | src/lib/kiro.py:48 | a name without a dot, or one ending in a dot, is unchanged |
| Paths.ResultShape | src/lib/kiro.py:48 | the result is either the name itself or ends in `.kiro.json` |
| Paths.Examples | src/lib/kiro.py:48 | `image1.png`, `archive.tar.gz`, `.hidden`, `README` and `trailing.` map as Python's `re.sub` maps them |
| Tokens.StringToTokens | src/lib/kiro.py:74-92 | the tokenizer never yields more tokens than characters, and yields no gap unless spaces are gaps |
| Tokens.ScanChar | src/lib/kiro.py:77-91 | inside a bracket, the last token is the open one, before and after each character |
| Tokens.ScanCharKeepsClosed | src/lib/kiro.py:77-91 | one character appends at most one token and never changes a finished token |
| Tokens.ScanKeepsClosed | src/lib/kiro.py:76-91 | the loop appends at most one token per character and leaves every finished token as it is |
| Tokens.ScanIsLex | src/lib/kiro.py:74-92 | the character loop with its `in_long_token` flag appends exactly the tokens of a stateless reference grammar (bracket to first `]` or end of input, else one character per token, unbracketed space as gap when asked) |
| Tokens.ScanInBracket | src/lib/kiro.py:85-90 | inside an open bracket the loop extends the open token with every character, `[` and spaces included, up to the first `]`, which ends the token and emits nothing |
| Tokens.BracketedToken | src/lib/kiro.py:78-90 | `[body]rest` tokenizes to `body` as one token followed by the tokens of `rest`, for any body without `]` |
| Tokens.UnterminatedBracket | src/lib/kiro.py:78-90 | a `[` that is never closed makes the rest of the input one token |
| Tokens.SingleCharacterToken | src/lib/kiro.py:82-91 | outside brackets any character but `[` is a token of its own, a stray `]` included; a space is a gap exactly when spaces are gaps |
| Tokens.OneTokenPerCharacter | src/lib/kiro.py:74-92 | text without `[`, spaces kept, gives one token per character in order |
| Tokens.TokenizePlainExample | src/lib/kiro.py:74-92 | `AB` tokenizes to `A`, `B` |
| Tokens.TokenizeBracketExample | src/lib/kiro.py:74-92 | `[Enter]X` tokenizes to `Enter`, `X` |
| Tokens.TokenizeSpaceExample | src/lib/kiro.py:74-92 | `A B` with spaces as gaps tokenizes to `A`, gap, `B` |
| Tokens.TokenizeEmptyBracketExample | src/lib/kiro.py:74-92 | `[]` tokenizes to one empty token |
| Tokens.MatchToken | src/lib/kiro.py:102-105 | the match is the first of the token, its upper case and its lower case that is in the table, and it is absent exactly when none of the three is |
| Tokens.NormalizeTokens | src/lib/kiro.py:95-107 | output no longer than input, the same length exactly when every token matches, every kept token in the table, and gaps neither added nor lost |
| Tokens.NormalizeAppend | src/lib/kiro.py:95-107 | normalizing a concatenation normalizes each part, so the relative order of kept tokens is preserved |
| Tokens.NormalizePointwise | src/lib/kiro.py:95-107 | when every token matches, output `i` is a gap exactly when input `i` is, and otherwise is a case variant of input `i` found in the table |
| Tokens.NormalizeIdempotent | src/lib/kiro.py:95-107 | normalizing twice gives the same as normalizing once |
| Tokens.NormalizeFixesTableTokens | src/lib/kiro.py:95-107 | tokens already in the table (and gaps) are left exactly as they are |
| Tokens.FirstIndex | src/lib/kiro.py:117 | `list.index`: the first position holding the token, and absent exactly when the token is not in the table |
| Tokens.TokensToIndices | src/lib/kiro.py:110-121 | output no longer than input, the same length exactly when every non-gap token is in the table, every index points at a glyph |
| Tokens.IndexToToken | src/lib/kiro.py:124-125 | an index at or past the end gives None, a non-negative index its cell, a negative one counts from the end, and an index before `-len` raises |
| Tokens.IndicesRoundTrip | src/lib/kiro.py:110-125 | when every token is in the table, index `i` is a gap exactly when token `i` is, and `index_to_token` of it gives token `i` back |
| Tokens.NormalizedTokensRoundTrip | src/lib/kiro.py:95-125 | normalized tokens always survive `tokens_to_indices` whole, and every index maps back to its normalized token |
| Tokens.Significant | src/lib/kiro.py:204-205 | the filtered tokens are exactly the tokens other than `" "`, `"["` and `"]"`, each drawn from the input |
| Tokens.DetectWrongKeyset | src/lib/kiro.py:202-207 | the text is flagged exactly when some significant token has no case variant in the table |
| Tokens.NormalizeTokensFor | src/lib/kiro.py:95-107 | a list of gaps is returned unchanged without reading `keys`; otherwise it succeeds exactly when the keyset's table is usable, and then agrees with the table-level function |
| Tokens.TokensToIndicesFor | src/lib/kiro.py:110-121 | a list of gaps maps to gaps without reading `keys`; otherwise it succeeds exactly when the table is usable, and then agrees with the table-level function |
| Tokens.GapIndices | src/lib/kiro.py:113-115 | gaps map to gaps whatever the table |
| Tokens.IndexToTokenFor | src/lib/kiro.py:124-125 | fails with the table's own error when `keys` is unusable, and otherwise agrees with the table-level lookup |
| Tokens.DetectWrongKeysetFor | src/lib/kiro.py:202-207 | text with no significant token is never flagged; otherwise it succeeds exactly when the table is usable, and then agrees with the table-level test |
| Tokens.LowercaseTableExample | src/lib/kiro.py:95-125 | `ABC` against the table `a b c` gives indices 0, 1, 2 |
| Tokens.ExampleTokens | src/lib/kiro.py:74-92 | `ABC` tokenizes to `A`, `B`, `C` |
| Tokens.ExampleNormalized | src/lib/kiro.py:102-105 | `A`, `B`, `C` normalize to the lower-case table entries |
| Tokens.ExampleIndices | src/lib/kiro.py:117 | `a`, `b`, `c` map to indices 0, 1, 2 |
| Tokens.LowerMatch | src/lib/kiro.py:102-105 | a one-letter upper-case token missing from the table falls through to its lower case |
| Keysets.NewKeyset | src/lib/types.py:49-70 | construction fails exactly when `length` is missing or 0 and there is no table; a truthy length is kept, otherwise it is the table size; `length_explicit` records whether a length was passed; every other field is stored as given |
| Keysets.Keys | src/lib/types.py:31-43 | without alt_for the stored table; with alt_for an error exactly when there is no parent or the target itself has alt_for, and otherwise an empty table or None, never the target's table |
| Keysets.SetKeys | src/lib/types.py:45-47 | the setter replaces the stored table and nothing else |
| Keysets.NewMetaData | src/lib/types.py:10-16 | the metadata holds exactly the given fields and keysets |
| Keysets.Table | src/lib/kiro.py:103 | a table is usable exactly when `keys` succeeds and is not None, and it is then that table |
| Keysets.SetThenGetKeys | src/lib/types.py:31-47 | without alt_for, `keys` returns the value last set, whatever the parent |
| Keysets.ConstructedKeys | src/lib/types.py:49-70 | without alt_for, `keys` returns the table passed to the constructor |
| Keysets.ExplicitZeroLength | src/lib/types.py:67-68 | an explicit length of 0 is marked explicit but replaced by the table size |
| Keysets.AltForResolution | src/lib/types.py:33-43 | inside a metadata object a dangling alt_for gives `[]`, a chained one an error, a root target None (so no usable table); without a parent, alt_for always fails |
| Metadata.Field | src/lib/metadata.py:35 | a member lookup finds nothing exactly when no member has the name |
| Metadata.Blanks | src/lib/metadata.py:91 | `[None] * n` has `n` blank cells, none when `n` is negative |
| Metadata.RowCells | src/lib/metadata.py:93 | `row_gap * cols` succeeds exactly for an integer or bool `cols`, a bool counting as 1 or 0 |
| Metadata.EntryCells | src/lib/metadata.py:84-96 | a string entry is one glyph cell and null one blank cell; an object with an integer `gap` gives `gap` blank cells, checked before `row_gap`; otherwise an integer `row_gap` gives `row_gap * cols` blank cells and fails exactly when that product does; an object with neither gives no cells; any other value one blank cell; every glyph produced comes from a string entry |
| Metadata.EntriesCells | src/lib/metadata.py:82-97 | the cells of a `keys` list fail only through `cols`, never when `cols` is an int or bool |
| Metadata.EntriesCellsAppend | src/lib/metadata.py:84-96 | entries are independent: the cells of a concatenated list are the concatenated cells |
| Metadata.GapEntries | src/lib/metadata.py:90-93 | `{"gap": n}` gives `n` blanks and `{"row_gap": n}` gives `n * cols` blanks |
| Metadata.NormalizeKeys | src/lib/metadata.py:81-97 | a missing `cols` or `keys` fails; a string `keys` gives one glyph per character; only a list, string or object can be iterated |
| Metadata.EncodeTableRoundTrip | src/lib/metadata.py:81-97 | a glyph table written as strings and nulls normalizes back to itself |
| Metadata.NormalizeAll | src/lib/metadata.py:35 | every normalized table belongs to a keyset named in the document |
| Metadata.NormalizeAllLookup | src/lib/metadata.py:35 | a keyset named once in the document is an object, has a table exactly when its entry has a `keys` member, and that table is `_normalize_keys` of the entry |
| Metadata.IntField | src/lib/metadata.py:45-51 | a required integer member succeeds exactly when present and an integer, and then gives that integer |
| Metadata.OptionalField | src/lib/metadata.py:48-50 | `obj[name] if name in obj else None`: nothing exactly when the member is absent or null, otherwise the member itself |
| Metadata.BuildKeyset | src/lib/metadata.py:42-52 | a built keyset carries its member name, the document version, its normalized table if it has one, and the document's integer fields; `alt_for` is None exactly when the member is absent or null and is otherwise the member's string; the length is explicit exactly when a non-null `length` is given, is that length when non-zero, and is otherwise the size of the keyset's table |
| Metadata.BuildKeysets | src/lib/metadata.py:41-52 | the built map has exactly the names of the document's keysets, each keyset named by its key and stamped with the document version |
| Metadata.BuildKeysetsLookup | src/lib/metadata.py:41-52 | a keyset named once in the document is in the built map as `KiroKeyset(...)` makes it from its own entry |
| Metadata.Version | src/lib/metadata.py:38 | no `version` gives 1.0, and an integer or real `version` is kept as its number |
| Metadata.NameField | src/lib/metadata.py:39 | `data["name"]` is required and is the document's string name |
| Metadata.DescriptionField | src/lib/metadata.py:40 | `data["description"]` is required; null gives None and a string is kept |
| Metadata.DictToInstance | src/lib/metadata.py:34-53 | a loaded document has exactly its keysets by name, each named by its key and stamped with the document version; version 1.0 when none is given and the given number otherwise; its name; and None exactly for a null description |
| Metadata.LoadedKeyset | src/lib/metadata.py:34-53 | a keyset named once in a loaded document is built from its own entry, and has a table exactly when that entry has `keys`, the table being `_normalize_keys` of the entry |
| Metadata.NormalizeEncodedKeyset | src/lib/metadata.py:81-97 | the table of an encoded keyset normalizes back to that table |
| Metadata.EncodedKeysetBuilds | src/lib/metadata.py:42-52 | an encoded keyset that the constructor can produce builds back to itself |
| Metadata.NormalizeAllEncoded | src/lib/metadata.py:35 | normalizing encoded keysets gives exactly the tables of the keysets that have one |
| Metadata.EncodedKeysetsBuild | src/lib/metadata.py:41-52 | a list of distinct keysets, encoded, builds back to the same keysets by name |
| Metadata.LoadSteps | src/lib/metadata.py:34-53 | a document whose every step succeeds loads to the values those steps give |
| Metadata.DocumentRoundTrip | src/lib/metadata.py:34-53 | writing distinct, loadable keysets out as a document and loading it gives back the same metadata |
| Layouts.GetLayout | src/lib/kiro.py:183-186 | a known layout name gives that layout and an unknown one the empty layout |
| Layouts.AdjustUp | src/lib/kiro.py:197 | a slice bound for step 1 lies in `[0, n]` and is unchanged when already there |
| Layouts.AdjustDown | src/lib/kiro.py:197 | a slice bound for step -1 lies in `[-1, n - 1]` and is unchanged when a valid index |
| Layouts.SliceUp | src/lib/kiro.py:197 | `xs[start:stop]`: the elements from the adjusted start up to the adjusted stop, none when the stop is not after the start |
| Layouts.SliceDown | src/lib/kiro.py:197 | `xs[start:stop:-1]`: the elements from the adjusted start walking down to just above the adjusted stop, none when the stop is not below the start |
| Layouts.Window | src/lib/kiro.py:197 | the layout slice has at most `abs(length)` glyphs, starts with the glyph at `f` when not empty, and holds only layout glyphs |
| Layouts.WindowClipped | src/lib/kiro.py:197 | the meant window: `length` glyphs forward from `f`, or `-length` glyphs backward, cut at the layout's ends |
| Layouts.WindowForward | src/lib/kiro.py:197 | walking forward, Python's slice is the meant window |
| Layouts.WindowBackward | src/lib/kiro.py:197 | walking backward, Python's slice is the meant window exactly when `f + length` is not in `[-n, -1]` |
| Layouts.IndicesOf | src/lib/kiro.py:198 | the indices of a list of glyphs are no more than the glyphs, and each points at a glyph of the table |
| Layouts.IndicesOfTokens | src/lib/kiro.py:198 | the indices of a list of glyphs are exactly `tokens_to_indices` of those glyphs read as tokens |
| Layouts.IndicesOfPositions | src/lib/kiro.py:198 | on a table listing a layout's distinct glyphs, glyphs taken from the layout map to their positions |
| Layouts.Anchor | src/lib/kiro.py:192-196 | an error exactly when the table is unusable or `start` is before `-len`; otherwise the first layout position of the start glyph's upper case, or none when the cell is blank or the layout lacks it |
| Layouts.LayoutSequence | src/lib/kiro.py:189-199 | layout `_` gives `[start]`; otherwise it fails exactly as `index_to_token` does; a blank or past-the-end start cell, or a start glyph whose upper case the layout lacks, gives `[start]`; otherwise the result is `tokens_to_indices` of Python's slice `lo[f:f + length:±1]` from the first layout position `f` of that upper case, so it has at most `abs(length)` indices, all in the table |
| Layouts.LayoutSequenceClipped | src/lib/kiro.py:189-199 | the same contract with the slice replaced by the corrected backward window, which is cut at the layout's start instead of wrapping |
| Layouts.AnchorLaidOut | src/lib/kiro.py:192-196 | on a laid-out keyset the anchor of `start` is `start` |
| Layouts.LayoutForwardRun | src/lib/kiro.py:189-199 | walking forward on a laid-out keyset gives `start, start + 1, …`, cut at the layout's end |
| Layouts.LayoutBackwardRun | src/lib/kiro.py:189-199 | in the corrected model walking backward gives `start, start - 1, …`, cut at index 0 |
| Layouts.LayoutBackwardAsWritten | src/lib/kiro.py:189-199 | as written, the backward run is that sequence exactly when `start + length` is not in `[-n, -1]` |
| Layouts.ForwardExample | src/lib/kiro.py:189-199 | from index 0, three keys forward on Q W E R give 0, 1, 2 |
| Layouts.BackwardExample | src/lib/kiro.py:189-199 | from index 2, two keys backward give 2, 1 |
| Layouts.FallbackExamples | src/lib/kiro.py:190-196 | the layout `_` and an unknown layout both give `[start]` |
| Layouts.LayoutBackwardWraps | src/lib/kiro.py:197 | from index 1, two keys backward: the source gives nothing, the corrected model 1, 0 |
| Ascii.UpperChar | src/lib/kiro.py:102 | a lower-case ASCII letter becomes its own capital (the same place in `A`…`Z`), any other character is unchanged |
| Ascii.LowerChar | src/lib/kiro.py:102 | a capital ASCII letter becomes its own lower-case letter (the same place in `a`…`z`), any other character is unchanged |
| Ascii.CaseRoundTrip | src/lib/kiro.py:102 | upper-casing a lower-case letter and lower-casing the result gives the letter back, and the other way round |
| Ascii.Upper | src/lib/kiro.py:102 | `token.upper()` upper-cases each character in place and keeps the length |
| Ascii.Lower | src/lib/kiro.py:102 | `token.lower()` lower-cases each character in place and keeps the length |
| Ascii.CaseFolds | src/lib/kiro.py:102 | a string and its upper case have the same lower case and the same upper case, so the three variants tried differ only in letter case |
| TtlCache.NewCache | src/lib/cache.py:28-30 | a new cache is empty and keeps its default lifetime |
| TtlCache.ValidityWindow | src/lib/cache.py:20-21 | an item is valid exactly while `now < born + lifetime`, and once invalid it never becomes valid again |
| TtlCache.EffectiveLifetime | src/lib/cache.py:17-36 | an item's lifetime is the `set` argument, else the cache's lifetime, else `_DEFAULT_LIFETIME` (60) |
| TtlCache.Set | src/lib/cache.py:35-37 | the key holds the value, born now, with the argument's lifetime, else the cache's, else 60; every other key is untouched |
| TtlCache.Delete | src/lib/cache.py:40-41 | deleting fails exactly when the key is absent, and otherwise removes only that key |
| TtlCache.GetOrRaise | src/lib/cache.py:44-55 | a miss exactly when the key is absent, a hit exactly when present and younger than its lifetime (the cache unchanged), and a timeout deletes the key |
| TtlCache.GetOrResolve | src/lib/cache.py:57-66 | the resolver is skipped exactly on a hit, judged at the lookup time; otherwise its value is stored, born at the later time the resolver returned, and returned; its failure stores nothing; other keys are untouched |
| TtlCache.Get | src/lib/cache.py:68-72 | a value exactly on a hit; a miss or a timeout gives None, and a timeout still deletes |
| TtlCache.SetThenLookup | src/lib/cache.py:35-55 | a value set at `born` is found while younger than its lifetime, and from then on times out and is removed |
| TtlCache.TimeoutThenMiss | src/lib/cache.py:49-52 | after a timeout the next lookup is a plain miss |
| TtlCache.LookupIgnoresLifetime | src/lib/cache.py:44-55 | the `lifetime` argument of `get_or_raise` changes nothing |
| TtlCache.SetIsolation | src/lib/cache.py:35-55 | setting one key never changes a lookup of another key |
| TtlCache.SetThenDelete | src/lib/cache.py:35-41 | setting a fresh key and deleting it gives back the original cache |
| TtlCache.SetOverwrites | src/lib/cache.py:35-37 | a second set of a key replaces the first entirely, which resets its clock |
| TtlCache.ResolveOnce | src/lib/cache.py:57-66 | the first resolve of a missing key calls the resolver; a second within the stored lifetime of the item's birth does not, and returns the same value |
| Util.Flatten | src/lib/util.py:6-7 | the flattened list is as long as all the sublists together |
| Util.FlattenAppend | src/lib/util.py:6-7 | flattening distributes over concatenation |
| Util.FlattenPosition | src/lib/util.py:6-7 | element `j` of sublist `i` lands right after all elements of earlier sublists |
| Util.IndexOf | src/lib/kiro.py:117 | `list.index`: the first position holding the value, absent exactly when the value is not in the list |
| Util.Words | src/lib/util.py:11 | the words of `re.split(' +', s)` without empty pieces are non-empty and space-free |
| Util.WordsOfJoin | src/lib/util.py:11-21 | splitting words joined by single spaces gives the words back |
| Util.JoinSpaceShape | src/lib/util.py:13-20 | words joined by single spaces form a non-empty line with no space at either end and no double space |
| Util.PackStepFlatten | src/lib/util.py:15-19 | one step of the loop puts the word after all earlier words, on a new line or the last one |
| Util.PackStepKeepsInvariant | src/lib/util.py:15-19 | one step keeps the lines well packed: a line of two or more words fits, and a new line starts only when its first word did not fit |
| Util.PackFlatten | src/lib/util.py:14-19 | the whole loop appends the words in order |
| Util.PackKeepsInvariant | src/lib/util.py:14-19 | the whole loop keeps the lines well packed |
| Util.WrapGroupsFacts | src/lib/util.py:10-21 | the lines' word groups are well packed and together are exactly the input's words |
| Util.LinesAreGroups | src/lib/util.py:10-21 | each output line is its group of words joined by single spaces, and splits back into that group |
| Util.WordwrapKeepsWords | src/lib/util.py:10-21 | no words gives no lines; otherwise the lines' words, in order, are exactly the input's words |
| Util.WordwrapLineShape | src/lib/util.py:13-20 | every line is non-empty, has no space at either end and single spaces between words |
| Util.WordwrapFits | src/lib/util.py:16-19 | a line of two or more words fits in `length`, and a word longer than `length` sits alone |
| Util.WordwrapGreedy | src/lib/util.py:16-17 | a line after the first starts only because the previous line, a space and its first word would exceed `length` |
| Util.Wordwrap | src/lib/util.py:10-21 | one line per word group, and no lines exactly when the string has no words |
| Typeset.ParseDirection | src/lib/typeset.py:26-34 | a direction shorter than two characters is `+x`; an axis letter other than x, y or z (either case) is an error; otherwise a unit vector on that axis, negative exactly when the first character is `-` |
| Typeset.StepsFor | src/lib/typeset.py:36-37 | along each of the six axis directions the normal step lies on that axis, signed by the direction, with the template's size on that axis plus the gap; the gap step is the normal step plus the gap adjustment along the direction; along `+x` both steps are given outright |
| Typeset.Present | src/lib/typeset.py:54 | the non-gap indices are never more than the indices |
| Typeset.PresentMembers | src/lib/typeset.py:54 | a value is among the non-gap indices exactly when the indices hold it |
| Typeset.Positions | src/lib/typeset.py:47-50 | one position per non-gap index, each inside the list |
| Typeset.PositionsPoint | src/lib/typeset.py:47-54 | position `k` holds the `k`-th non-gap index |
| Typeset.OffsetsAreSums | src/lib/typeset.py:47-50 | the `k`-th recorded offset is the start plus every step up to and including the `k`-th non-gap element |
| Typeset.OffsetListAt | src/lib/typeset.py:43-50 | entry `j + 1` of the offsets list is the sum of the steps up to and including the `j`-th non-gap element after position 0 |
| Typeset.CountGaps | src/lib/typeset.py:48 | there are never more gaps than elements, and with the None test the gaps are the elements minus the non-gap indices |
| Typeset.SumStepsCounts | src/lib/typeset.py:48 | the summed steps are one normal step per non-gap element plus one gap step per gap |
| Typeset.WireEdges | src/lib/typeset.py:8 | `n - 1` edges (none for no points), each joining a point to the next, every point after the first joined to its predecessor |
| Typeset.Assemble | src/lib/typeset.py:52-75 | the original is tagged `indices[0]`, copy `j` is tagged and placed at `location + offsets[j + 1]`; with the guide wire every object is zeroed and hung on its vertex of a wire at the original's location |
| Typeset.OffsetList | src/lib/typeset.py:43-50 | one offset per non-gap element after position 0, preceded by the zero offset |
| Typeset.TagsAsWritten | src/lib/typeset.py:54-56 | the copies' tags are the non-gap indices after position 0, except that a leading gap drops the first of them |
| Typeset.AsWrittenPlan | src/lib/typeset.py:40-65 | the original keeps `indices[0]` as its tag, and there is one copy per non-gap index but the first |
| Typeset.CorrectedPlan | src/lib/typeset.py:40-65 | the original keeps `indices[0]` as its tag, and there is one copy per non-gap index after position 0 |
| Typeset.ExtendFromOriginal | src/lib/typeset.py:14-75 | empty indices leave the original untouched; otherwise it fails exactly when the direction's axis is unknown, and else tags the original and makes one copy per non-gap index but the first |
| Typeset.ExtendCorrected | src/lib/typeset.py:14-75 | the same, with a copy for every non-gap index after position 0 |
| Typeset.AsWrittenCopy | src/lib/typeset.py:47-65 | as written, copy `j` is tagged with the `(j+1)`-th non-gap index and placed at the running sum of the truthiness-tested steps up to the `j`-th non-gap element after position 0 |
| Typeset.CorrectedCopy | src/lib/typeset.py:47-65 | corrected, copy `j` is tagged with its own index and placed one normal step per glyph and one gap step per gap up to and including it |
| Typeset.WireKeepsPositions | src/lib/typeset.py:67-75 | with the guide wire every object ends up at the same world position as without it, and object `k` hangs on vertex `k` |
| Typeset.GuideWireKeepsPositions | src/lib/typeset.py:67-75 | both plans place every object at the same world position with or without the guide wire |
| Typeset.NoZeroSameOffsets | src/lib/typeset.py:48 | without glyph index 0, testing truthiness and testing for None give the same offsets |
| Typeset.AsWrittenAgrees | src/lib/typeset.py:40-65 | when the list does not start with a gap and has no index 0 after position 0, the source's plan is the corrected plan |
| Typeset.RunExample | src/lib/typeset.py:14-65 | indices 0, 1, 2 on a 10-unit block with gap 2 put the copies at x = 12 and 24 |
| Typeset.GapExample | src/lib/typeset.py:14-65 | indices 0, gap, 2 with a gap step 3 wider put the copy at x = 27 |
| Typeset.ZeroIndexTakesGapStep | src/lib/typeset.py:48 | for indices 1, 0 the source puts the copy at x = 15, where the corrected plan puts it at 12 |
| Typeset.LeadingGapLosesGlyph | src/lib/typeset.py:54-60 | for gap, 5, 6 the source makes one copy, tagged 6, at x = 12; the corrected plan makes 5 at 12 and 6 at 24 |

## Left out

- Blender and the file system: `bpy`, object copying and linking, deselecting each copy (`new_copy.select_set(False)`), mesh creation, `exists`, `abspath`, `dirname`, `join`, and reading `layouts.json` and `.kiro.json` files. These are I/O. The model returns plans and takes the loaded data as parameters.
- `kiro_images`, `kiro_data`, `set_names`, `keysets_for_image*`, `keysets_by_image` and `layouts()`. They are glue around the cache and Blender data; the cache itself is modelled in `TtlCache`.
- The JSON parser and the schema validator (`metadata.load`, `validate`). Parsing is I/O, and the validator is a third-party library that may be absent. `Metadata.DictToInstance` takes an already-parsed document.
- Debug printing and warnings (`debug_id`, `print`, `warn`). They have no effect on results.
- `Cache.clear()`. Only a test helper calls it.
- The return value of `extend_from_original`: `[original]` for empty indices, otherwise None. The model returns `Untouched` or the plan.
- Floating-point vectors. `Typeset` uses exact reals; no rounding is modelled.
- Ascii.UpperChar, Ascii.LowerChar, Ascii.Upper, Ascii.Lower: `str.upper()` and `str.lower()` are modelled on ASCII letters only. Unicode case mapping, such as `ß` → `SS`, is left out.
- Metadata.IntField, Metadata.BuildKeyset, Metadata.DictToInstance: the model assumes the value types the `.kiro.json` schema allows and makes any other type an error (`WrongType`). When the schema validator is absent the source stores such values unchanged, for example `"cols": 2.0`, `"version": "2"`, `"name": 5`, `"length": true` or `"alt_for": false`; the model does not follow them.
- Metadata.Version: an integer `version` is stored as a real. Python would keep it an `int`; the number is the same.
- `_make_guide_wire` is modelled by the wire's points and edges (`Typeset.WireEdges`); the mesh object, its name and its collection are Blender state.

## Findings

| source | as written | input that shows it | evidently intended | confidence | as-written member | corrected member |
|---|---|---|---|---|---|---|
| src/lib/kiro.py:197 | the backward slice `lo[f:f + length:-1]` has a negative stop whenever `f + length` is in `[-n, -1]`, and Python reads that stop as counting from the end of the layout | layout Q W E R, start index 1, length -2: `lo[1:-1:-1]` is empty, so `layout_sequence` returns `[]` | the keys from `start` walking backward, cut at the first key: `[1, 0]` | not executed; medium, follows from Python's slice rules | Layouts.LayoutBackwardWraps | Layouts.LayoutBackwardRun |
| src/lib/typeset.py:48 | the step after each index tests `if keycap`, so glyph index 0, which is falsy, takes the wider gap step meant for None | indices `[1, 0]`, a 10-unit block, gap 2, space gap 3: the copy of index 0 lands at x = 15 | a gap step only for None, putting the copy at x = 12 | not executed; high, the next line tests `is not None` | Typeset.ZeroIndexTakesGapStep | Typeset.CorrectedCopy |
| src/lib/typeset.py:54-60 | the copies are tagged from `non_space_indices[1:]`, which drops the first non-gap index even when `indices[0]` was the gap, while the offsets are taken from `indices[1:]` | indices `[None, 5, 6]`: one copy, tagged 6, at the place of 5; glyph 5 is never placed | one copy per non-gap index after position 0, each at its own offset: 5 at x = 12 and 6 at x = 24 | not executed; medium, a leading gap may be unusual input | Typeset.LeadingGapLosesGlyph | Typeset.CorrectedCopy |
