/** Building the in-memory metadata from a parsed `.kiro.json` document:
    `_normalize_keys` and `_dict_to_instance` of src/lib/metadata.py.

    A JSON object is a list of (name, value) pairs in document order, which
    is the order Python's `dict` iterates in; a parsed document has distinct
    names in each object, and `Field` reads the first pair with a name.  A
    Python exception raised while building (a missing field, a value of a
    type the code cannot use) is an `Err`. */
module Metadata {
  import opened Results
  import opened Keysets

  datatype Json =
    | JNull
    | JBool(b: bool)
    | JInt(i: int)
    | JReal(r: real)
    | JStr(s: string)
    | JArr(items: seq<Json>)
    | JObj(fields: seq<(string, Json)>)

  /** `obj[name]` / `name in obj`: the value of the first pair named `name`. */
  function Field(fields: seq<(string, Json)>, name: string): (r: Option<Json>)
    ensures r.None? <==> forall i :: 0 <= i < |fields| ==> fields[i].0 != name
  {
    if fields == [] then None
    else if fields[0].0 == name then Some(fields[0].1)
    else Field(fields[1..], name)
  }

  lemma {:induction false} FieldAt(fields: seq<(string, Json)>, name: string, i: nat)
    requires i < |fields| && fields[i].0 == name
    requires forall j :: 0 <= j < i ==> fields[j].0 != name
    ensures Field(fields, name) == Some(fields[i].1)
  {
    if i > 0 {
      FieldAt(fields[1..], name, i - 1);
    }
  }

  /** Looking a name up in a concatenation looks in the first part first. */
  lemma {:induction false} FieldAppend(a: seq<(string, Json)>, b: seq<(string, Json)>, name: string)
    ensures Field(a + b, name) == if Field(a, name).Some? then Field(a, name) else Field(b, name)
  {
    if a == [] {
      assert a + b == b;
    } else {
      assert (a + b)[0] == a[0];
      assert (a + b)[1..] == a[1..] + b;
      FieldAppend(a[1..], b, name);
    }
  }

  // ---------------------------------------------------------------------------
  // _normalize_keys

  /** `[None] * n`: a negative count gives no cells. */
  function Blanks(n: int): (t: KeyTable)
    ensures |t| == if n < 0 then 0 else n
    ensures forall i :: 0 <= i < |t| ==> t[i].None?
  {
    if n <= 0 then [] else Blanks(n - 1) + [None]
  }

  /** `name in obj and type(obj[name]) is int`. */
  predicate IntMember(fields: seq<(string, Json)>, name: string) {
    Field(fields, name).Some? && Field(fields, name).value.JInt?
  }

  /** `row_gap * cols` as Python computes it: a bool counts as 0 or 1, and
      any other non-integer `cols` makes `[None] * …` raise. */
  function RowCells(rows: int, cols: Json): (r: Result<int, Error>)
    ensures r.Ok? <==> cols.JInt? || cols.JBool?
    ensures cols.JInt? ==> r == Ok(rows * cols.i)
    ensures cols.JBool? ==> r == Ok(rows * (if cols.b then 1 else 0))
  {
    match cols
    case JInt(c) => Ok(rows * c)
    case JBool(b) => Ok(if b then rows else 0)
    case _ => Err(WrongType("cols"))
  }

  /** The cells one `keys` entry contributes: a glyph string is one cell, a
      null one blank cell, `{"gap": n}` n blank cells and `{"row_gap": n}`
      n rows of blank cells (only a true `int` counts, not a bool); any
      other object contributes nothing, and any other value one blank cell
      (with a printed warning). */
  function EntryCells(e: Json, cols: Json): (r: Result<KeyTable, Error>)
    ensures e.JStr? ==> r == Ok([Some(e.s)])
    ensures e.JNull? ==> r == Ok([None])
    ensures !(e.JNull? || e.JStr? || e.JObj?) ==> r == Ok([None])
    ensures e.JObj? && IntMember(e.fields, "gap") ==> r == Ok(Blanks(Field(e.fields, "gap").value.i))
    ensures e.JObj? && !IntMember(e.fields, "gap") && IntMember(e.fields, "row_gap") ==>
      var n := RowCells(Field(e.fields, "row_gap").value.i, cols);
      && (r.Ok? <==> n.Ok?)
      && (r.Ok? ==> r.value == Blanks(n.value))
    ensures e.JObj? && !IntMember(e.fields, "gap") && !IntMember(e.fields, "row_gap") ==> r == Ok([])
    ensures r.Ok? ==> forall i :: 0 <= i < |r.value| && r.value[i].Some? ==> e == JStr(r.value[i].value)
    ensures r.Err? ==> r.error == WrongType("cols")
  {
    match e
    case JNull => Ok([None])
    case JStr(s) => Ok([Some(s)])
    case JObj(f) =>
      var gap := Field(f, "gap");
      var rowGap := Field(f, "row_gap");
      if IntMember(f, "gap") then Ok(Blanks(gap.value.i))
      else if IntMember(f, "row_gap") then
        var n :- RowCells(rowGap.value.i, cols);
        Ok(Blanks(n))
      else Ok([])
    case _ => Ok([None])
  }

  /** The cells of a list of entries, in order.  Only a `row_gap` entry
      with a `cols` that is neither an integer nor a bool can fail. */
  function EntriesCells(entries: seq<Json>, cols: Json): (r: Result<KeyTable, Error>)
    ensures r.Err? ==> r.error == WrongType("cols")
    ensures cols.JInt? || cols.JBool? ==> r.Ok?
  {
    if entries == [] then Ok([])
    else
      var head :- EntryCells(entries[0], cols);
      var tail :- EntriesCells(entries[1..], cols);
      Ok(head + tail)
  }

  /** `_normalize_keys(keyset)`.  `cols` is read first and must exist.  The
      `keys` value is iterated: a list entry by entry, a string character by
      character, an object by its member names; anything else cannot be
      iterated. */
  function NormalizeKeys(keyset: seq<(string, Json)>): (r: Result<KeyTable, Error>)
    ensures Field(keyset, "cols").None? ==> r == Err(MissingField("cols"))
    ensures Field(keyset, "cols").Some? && Field(keyset, "keys").None? ==> r == Err(MissingField("keys"))
    ensures r.Ok? && Field(keyset, "keys").value.JStr? ==>
      var s := Field(keyset, "keys").value.s;
      |r.value| == |s| && forall i :: 0 <= i < |s| ==> r.value[i] == Some([s[i]])
    ensures r.Ok? ==> Field(keyset, "keys").value.JArr? || Field(keyset, "keys").value.JStr?
                      || Field(keyset, "keys").value.JObj?
  {
    match Field(keyset, "cols")
    case None => Err(MissingField("cols"))
    case Some(cols) =>
      match Field(keyset, "keys")
      case None => Err(MissingField("keys"))
      case Some(keys) =>
        match keys
        case JArr(entries) => EntriesCells(entries, cols)
        case JStr(s) => Ok(seq(|s|, i requires 0 <= i < |s| => Some([s[i]])))
        case JObj(f) => Ok(seq(|f|, i requires 0 <= i < |f| => Some(f[i].0)))
        case _ => Err(WrongType("keys"))
  }

  /** A non-empty list of entries succeeds exactly when its first entry
      and the rest do, and then its cells are theirs in order. */
  lemma EntriesCellsUnfold(s: seq<Json>, cols: Json)
    requires s != []
    ensures EntriesCells(s, cols).Ok? <==> EntryCells(s[0], cols).Ok? && EntriesCells(s[1..], cols).Ok?
    ensures EntriesCells(s, cols).Ok? ==>
      EntriesCells(s, cols).value == EntryCells(s[0], cols).value + EntriesCells(s[1..], cols).value
  {
  }

  /** Entries are independent: the cells of a concatenation are the
      concatenation of the cells. */
  lemma {:induction false} EntriesCellsAppend(a: seq<Json>, b: seq<Json>, cols: Json)
    requires EntriesCells(a, cols).Ok? && EntriesCells(b, cols).Ok?
    ensures EntriesCells(a + b, cols) == Ok(EntriesCells(a, cols).value + EntriesCells(b, cols).value)
  {
    if a == [] {
      assert a + b == b;
      assert [] + EntriesCells(b, cols).value == EntriesCells(b, cols).value;
    } else {
      var ab := a + b;
      assert ab[0] == a[0] && ab[1..] == a[1..] + b;
      EntriesCellsUnfold(a, cols);
      EntriesCellsAppend(a[1..], b, cols);
      EntriesCellsUnfold(ab, cols);
      var h := EntryCells(a[0], cols).value;
      var x := EntriesCells(a[1..], cols).value;
      var y := EntriesCells(b, cols).value;
      assert h + (x + y) == (h + x) + y;
    }
  }

  /** `gap` and `row_gap` entries insert exactly `n` and `n * cols` blank
      cells, so the glyphs after them keep their grid positions. */
  lemma GapEntries(n: nat, cols: nat)
    ensures EntryCells(JObj([("gap", JInt(n))]), JInt(cols)) == Ok(Blanks(n))
    ensures EntryCells(JObj([("row_gap", JInt(n))]), JInt(cols)) == Ok(Blanks(n * cols))
  {
  }

  /** The JSON form of a glyph table: a string per glyph, null per blank. */
  function EncodeTable(t: KeyTable): (es: seq<Json>)
    ensures |es| == |t|
  {
    seq(|t|, i requires 0 <= i < |t| => if t[i].Some? then JStr(t[i].value) else JNull)
  }

  /** Normalizing the JSON form of a glyph table gives the table back. */
  lemma {:induction false} EncodeTableRoundTrip(t: KeyTable, cols: Json)
    ensures EntriesCells(EncodeTable(t), cols) == Ok(t)
  {
    if t != [] {
      EncodeTableRoundTrip(t[1..], cols);
      assert EncodeTable(t)[1..] == EncodeTable(t[1..]);
      assert t == [t[0]] + t[1..];
    }
  }

  // ---------------------------------------------------------------------------
  // _dict_to_instance

  /** The names of a list of members. */
  function Names(members: seq<(string, Json)>): set<string> {
    set i | 0 <= i < |members| :: members[i].0
  }

  /** The `normalized_keys` comprehension: the table of every keyset that
      has a `keys` member, in document order; a keyset that is not an object
      cannot be queried. */
  function NormalizeAll(keysets: seq<(string, Json)>): (r: Result<map<string, KeyTable>, Error>)
    ensures r.Ok? ==> forall n :: n in r.value ==> n in Names(keysets)
    decreases |keysets|
  {
    if keysets == [] then Ok(map[])
    else
      var init :- NormalizeAll(keysets[..|keysets| - 1]);
      var (name, ks) := keysets[|keysets| - 1];
      if !ks.JObj? then Err(WrongType("keysets"))
      else if Field(ks.fields, "keys").None? then Ok(init)
      else
        var table :- NormalizeKeys(ks.fields);
        Ok(init[name := table])
  }

  /** A required integer member. */
  function IntField(fields: seq<(string, Json)>, name: string): (r: Result<int, Error>)
    ensures r.Ok? <==> Field(fields, name).Some? && Field(fields, name).value.JInt?
    ensures r.Ok? ==> Field(fields, name) == Some(JInt(r.value))
  {
    match Field(fields, name)
    case None => Err(MissingField(name))
    case Some(JInt(n)) => Ok(n)
    case Some(_) => Err(WrongType(name))
  }

  /** An optional member read as `obj[name] if name in obj else None`: absent
      and null both give None. */
  function OptionalField(fields: seq<(string, Json)>, name: string): (r: Option<Json>)
    ensures r.None? <==> Field(fields, name).None? || Field(fields, name) == Some(JNull)
    ensures r.Some? ==> Field(fields, name) == r
  {
    match Field(fields, name)
    case None => None
    case Some(JNull) => None
    case Some(v) => Some(v)
  }

  /** One `KiroKeyset(...)` of the comprehension, its arguments read in the
      order the source evaluates them. */
  function BuildKeyset(name: string, ks: Json, tables: map<string, KeyTable>, version: real): (r: Result<Keyset, Error>)
    ensures r.Ok? ==> ks.JObj? && r.value.name == name && r.value.version == version
    ensures r.Ok? ==> r.value.storedKeys == if name in tables then Some(tables[name]) else None
    ensures r.Ok? ==> Field(ks.fields, "cols") == Some(JInt(r.value.cols))
    ensures r.Ok? ==> Field(ks.fields, "rows") == Some(JInt(r.value.rows))
    ensures r.Ok? ==> Field(ks.fields, "start") == Some(JInt(r.value.start))
    ensures r.Ok? ==> Field(ks.fields, "default_key") == Some(JInt(r.value.defaultKey))
    ensures r.Ok? ==> (r.value.altFor.None? <==> OptionalField(ks.fields, "alt_for").None?)
    ensures r.Ok? && r.value.altFor.Some? ==> OptionalField(ks.fields, "alt_for") == Some(JStr(r.value.altFor.value))
    ensures r.Ok? ==> (r.value.lengthExplicit <==> OptionalField(ks.fields, "length").Some?)
    ensures r.Ok? ==>
      var l := OptionalField(ks.fields, "length");
      && (l.Some? ==> l.value.JInt?)
      && (l.Some? && l.value.i != 0 ==> r.value.length == l.value.i)
      && (l.None? || l.value.i == 0 ==> name in tables && r.value.length == |tables[name]|)
  {
    if !ks.JObj? then Err(WrongType("keysets"))
    else
      var cols :- IntField(ks.fields, "cols");
      var rows :- IntField(ks.fields, "rows");
      var start :- IntField(ks.fields, "start");
      var altFor :- match OptionalField(ks.fields, "alt_for")
        case None => Ok(None)
        case Some(JStr(s)) => Ok(Some(s))
        case Some(_) => Err(WrongType("alt_for"));
      var keys := if name in tables then Some(tables[name]) else None;
      var length :- match OptionalField(ks.fields, "length")
        case None => Ok(None)
        case Some(JInt(n)) => Ok(Some(n))
        case Some(_) => Err(WrongType("length"));
      var defaultKey :- IntField(ks.fields, "default_key");
      NewKeyset(name, cols, rows, start, defaultKey, length, keys, altFor, version)
  }

  /** The keysets comprehension, in document order; a later member of the
      same name replaces an earlier one, as in a Python dict. */
  function BuildKeysets(keysets: seq<(string, Json)>, tables: map<string, KeyTable>, version: real)
    : (r: Result<map<string, Keyset>, Error>)
    ensures r.Ok? ==> forall n :: n in r.value <==> n in Names(keysets)
    ensures r.Ok? ==> forall n :: n in r.value ==> r.value[n].name == n && r.value[n].version == version
    decreases |keysets|
  {
    if keysets == [] then Ok(map[])
    else
      var init :- BuildKeysets(keysets[..|keysets| - 1], tables, version);
      var (name, ks) := keysets[|keysets| - 1];
      var keyset :- BuildKeyset(name, ks, tables, version);
      assert Names(keysets) == Names(keysets[..|keysets| - 1]) + {name} by {
        forall n | n in Names(keysets) ensures n in Names(keysets[..|keysets| - 1]) + {name} {
          var i :| 0 <= i < |keysets| && keysets[i].0 == n;
          if i < |keysets| - 1 {
            assert keysets[..|keysets| - 1][i] == keysets[i];
          }
        }
      }
      Ok(init[name := keyset])
  }

  /** `data["version"] if "version" in data else 1.0`. */
  function Version(top: seq<(string, Json)>): (r: Result<real, Error>)
    ensures Field(top, "version").None? ==> r == Ok(1.0)
    ensures Field(top, "version").Some? ==>
      var v := Field(top, "version").value;
      && (r.Ok? <==> v.JInt? || v.JReal?)
      && (v.JInt? ==> r == Ok(v.i as real))
      && (v.JReal? ==> r == Ok(v.r))
  {
    match Field(top, "version")
    case None => Ok(1.0)
    case Some(JInt(n)) => Ok(n as real)
    case Some(JReal(v)) => Ok(v)
    case Some(_) => Err(WrongType("version"))
  }

  /** `data["name"]`. */
  function NameField(top: seq<(string, Json)>): (r: Result<string, Error>)
    ensures r.Ok? <==> Field(top, "name").Some? && Field(top, "name").value.JStr?
    ensures r.Ok? ==> Field(top, "name") == Some(JStr(r.value))
  {
    match Field(top, "name")
    case None => Err(MissingField("name"))
    case Some(JStr(s)) => Ok(s)
    case Some(_) => Err(WrongType("name"))
  }

  /** `data["description"]`: required, and null stands for None. */
  function DescriptionField(top: seq<(string, Json)>): (r: Result<Option<string>, Error>)
    ensures r.Ok? <==>
      && Field(top, "description").Some?
      && (Field(top, "description").value.JNull? || Field(top, "description").value.JStr?)
    ensures r.Ok? ==> Field(top, "description") == Some(if r.value.Some? then JStr(r.value.value) else JNull)
  {
    match Field(top, "description")
    case None => Err(MissingField("description"))
    case Some(JNull) => Ok(None)
    case Some(JStr(s)) => Ok(Some(s))
    case Some(_) => Err(WrongType("description"))
  }

  /** The members of the document's `keysets` object, if it has one. */
  function KeysetMembers(data: Json): seq<(string, Json)> {
    if data.JObj? && Field(data.fields, "keysets").Some? && Field(data.fields, "keysets").value.JObj?
    then Field(data.fields, "keysets").value.fields
    else []
  }

  /** `_dict_to_instance`: first the tables of all keysets, then the
      version, name and description, then every keyset; parents are wired
      by `NewMetaData`.  A document without `version` is version 1.0, a null
      description is None, and a keyset without `keys` has no table. */
  function DictToInstance(data: Json): (r: Result<MetaData, Error>)
    ensures r.Ok? ==> data.JObj? && Field(data.fields, "keysets").Some?
    ensures r.Ok? ==> forall n :: n in r.value.keysets <==> n in Names(KeysetMembers(data))
    ensures r.Ok? ==> forall n :: n in r.value.keysets ==>
      r.value.keysets[n].name == n && r.value.keysets[n].version == r.value.version
    ensures r.Ok? && Field(data.fields, "version").None? ==> r.value.version == 1.0
    ensures r.Ok? && Field(data.fields, "version").Some? ==>
      var v := Field(data.fields, "version").value;
      (v.JInt? && v.i as real == r.value.version) || (v.JReal? && v.r == r.value.version)
    ensures r.Ok? ==> Field(data.fields, "name") == Some(JStr(r.value.name))
    ensures r.Ok? && r.value.description.None? ==> Field(data.fields, "description") == Some(JNull)
    ensures r.Ok? && r.value.description.Some? ==>
      Field(data.fields, "description") == Some(JStr(r.value.description.value))
  {
    if !data.JObj? then Err(WrongType("document"))
    else
      var top := data.fields;
      var keysets :- match Field(top, "keysets")
        case None => Err(MissingField("keysets"))
        case Some(JObj(members)) => Ok(members)
        case Some(_) => Err(WrongType("keysets"));
      var tables :- NormalizeAll(keysets);
      var version :- Version(top);
      var name :- NameField(top);
      var description :- DescriptionField(top);
      var built :- BuildKeysets(keysets, tables, version);
      Ok(NewMetaData(version, name, description, built))
  }

  /** No other member of the list has the name of member `i`. */
  predicate UniqueAt(members: seq<(string, Json)>, i: nat)
    requires i < |members|
  {
    forall j :: 0 <= j < |members| && j != i ==> members[j].0 != members[i].0
  }

  /** Member `i` keeps its name in the list without the last member. */
  lemma UniqueInInit(members: seq<(string, Json)>, i: nat)
    requires i < |members| - 1 && UniqueAt(members, i)
    ensures UniqueAt(members[..|members| - 1], i)
    ensures members[|members| - 1].0 != members[i].0
  {
    var init := members[..|members| - 1];
    forall j | 0 <= j < |init| && j != i ensures init[j].0 != init[i].0 {
      assert init[j] == members[j] && init[i] == members[i];
    }
  }

  /** The last member's name occurs nowhere before it. */
  lemma UniqueLast(members: seq<(string, Json)>)
    requires members != [] && UniqueAt(members, |members| - 1)
    ensures members[|members| - 1].0 !in Names(members[..|members| - 1])
  {
  }

  /** A keyset named once has a table exactly when its entry has a `keys`
      member, and that table is `_normalize_keys` of the entry. */
  lemma {:induction false} NormalizeAllLookup(keysets: seq<(string, Json)>, i: nat)
    requires i < |keysets| && UniqueAt(keysets, i) && NormalizeAll(keysets).Ok?
    ensures keysets[i].1.JObj?
    ensures keysets[i].0 in NormalizeAll(keysets).value <==> Field(keysets[i].1.fields, "keys").Some?
    ensures keysets[i].0 in NormalizeAll(keysets).value ==>
      NormalizeKeys(keysets[i].1.fields) == Ok(NormalizeAll(keysets).value[keysets[i].0])
    decreases |keysets|
  {
    var init := keysets[..|keysets| - 1];
    if i < |keysets| - 1 {
      UniqueInInit(keysets, i);
      assert init[i] == keysets[i];
      NormalizeAllLookup(init, i);
    } else {
      UniqueLast(keysets);
    }
  }

  /** A keyset named once is what `BuildKeyset` makes of its entry. */
  lemma {:induction false} BuildKeysetsLookup(keysets: seq<(string, Json)>, tables: map<string, KeyTable>,
                                              version: real, i: nat)
    requires i < |keysets| && UniqueAt(keysets, i) && BuildKeysets(keysets, tables, version).Ok?
    ensures keysets[i].0 in BuildKeysets(keysets, tables, version).value
    ensures BuildKeyset(keysets[i].0, keysets[i].1, tables, version)
         == Ok(BuildKeysets(keysets, tables, version).value[keysets[i].0])
    decreases |keysets|
  {
    var init := keysets[..|keysets| - 1];
    if i < |keysets| - 1 {
      UniqueInInit(keysets, i);
      assert init[i] == keysets[i];
      BuildKeysetsLookup(init, tables, version, i);
    }
  }

  /** A loaded keyset named once in the document: built from its own entry,
      with a table exactly when the entry has `keys`, that table being
      `_normalize_keys` of the entry. */
  lemma LoadedKeyset(data: Json, i: nat)
    requires DictToInstance(data).Ok?
    requires i < |KeysetMembers(data)| && UniqueAt(KeysetMembers(data), i)
    ensures var (n, e) := KeysetMembers(data)[i];
      var md := DictToInstance(data).value;
      && n in md.keysets
      && BuildKeyset(n, e, NormalizeAll(KeysetMembers(data)).value, md.version) == Ok(md.keysets[n])
      && (md.keysets[n].storedKeys.Some? <==> Field(e.fields, "keys").Some?)
      && (md.keysets[n].storedKeys.Some? ==> NormalizeKeys(e.fields) == Ok(md.keysets[n].storedKeys.value))
  {
    var members := KeysetMembers(data);
    var md := DictToInstance(data).value;
    var tables := NormalizeAll(members).value;
    NormalizeAllLookup(members, i);
    BuildKeysetsLookup(members, tables, md.version, i);
  }

  // ---------------------------------------------------------------------------
  // Round trip: a metadata object written out as JSON loads back unchanged

  /** A keyset the loader can produce: its recorded length is what the
      constructor makes of its explicit length and its table. */
  predicate Rebuildable(ks: Keyset, version: real) {
    && ks.version == version
    && NewKeyset(ks.name, ks.cols, ks.rows, ks.start, ks.defaultKey,
                 if ks.lengthExplicit then Some(ks.length) else None,
                 ks.storedKeys, ks.altFor, version) == Ok(ks)
  }

  /** The members every encoded keyset has, null standing for an unset
      length or alt_for. */
  function KeysetCore(ks: Keyset): seq<(string, Json)> {
    [("cols", JInt(ks.cols)), ("rows", JInt(ks.rows)), ("start", JInt(ks.start)),
     ("default_key", JInt(ks.defaultKey)),
     ("length", if ks.lengthExplicit then JInt(ks.length) else JNull),
     ("alt_for", if ks.altFor.Some? then JStr(ks.altFor.value) else JNull)]
  }

  /** A keyset as a JSON object: the core members, and `keys` only when the
      keyset has a table. */
  function EncodeKeyset(ks: Keyset): Json {
    JObj(KeysetCore(ks) + if ks.storedKeys.Some? then [("keys", JArr(EncodeTable(ks.storedKeys.value)))] else [])
  }

  function EncodeKeysets(kss: seq<Keyset>): (members: seq<(string, Json)>)
    ensures |members| == |kss|
    ensures forall i :: 0 <= i < |kss| ==> members[i] == (kss[i].name, EncodeKeyset(kss[i]))
  {
    seq(|kss|, i requires 0 <= i < |kss| => (kss[i].name, EncodeKeyset(kss[i])))
  }

  function EncodeDocument(version: real, name: string, description: Option<string>, kss: seq<Keyset>): Json {
    JObj([("version", JReal(version)), ("name", JStr(name)),
          ("description", if description.Some? then JStr(description.value) else JNull),
          ("keysets", JObj(EncodeKeysets(kss)))])
  }

  predicate DistinctNames(kss: seq<Keyset>) {
    forall i, j :: 0 <= i < j < |kss| ==> kss[i].name != kss[j].name
  }

  /** The tables of the keysets that have one, by name. */
  function TablesOf(kss: seq<Keyset>): map<string, KeyTable>
    decreases |kss|
  {
    if kss == [] then map[]
    else
      var last := kss[|kss| - 1];
      var init := TablesOf(kss[..|kss| - 1]);
      if last.storedKeys.Some? then init[last.name := last.storedKeys.value] else init
  }

  /** The keysets by name. */
  function KeysetMap(kss: seq<Keyset>): map<string, Keyset>
    decreases |kss|
  {
    if kss == [] then map[] else KeysetMap(kss[..|kss| - 1])[kss[|kss| - 1].name := kss[|kss| - 1]]
  }

  lemma {:induction false} TablesOfLookup(kss: seq<Keyset>, i: nat)
    requires DistinctNames(kss) && i < |kss|
    ensures kss[i].storedKeys.Some? ==>
      kss[i].name in TablesOf(kss) && TablesOf(kss)[kss[i].name] == kss[i].storedKeys.value
    ensures kss[i].storedKeys.None? ==> kss[i].name !in TablesOf(kss)
    decreases |kss|
  {
    var init := kss[..|kss| - 1];
    if i < |kss| - 1 {
      assert DistinctNames(init) by {
        forall a, b | 0 <= a < b < |init| ensures init[a].name != init[b].name {
          assert init[a] == kss[a] && init[b] == kss[b];
        }
      }
      TablesOfLookup(init, i);
      assert init[i] == kss[i];
      assert kss[|kss| - 1].name != kss[i].name;
    } else {
      TablesOfNames(init);
      assert kss[i].name !in (set k | 0 <= k < |init| :: init[k].name);
    }
  }

  lemma {:induction false} TablesOfNames(kss: seq<Keyset>)
    ensures forall n :: n in TablesOf(kss) ==> n in (set k | 0 <= k < |kss| :: kss[k].name)
    decreases |kss|
  {
    if kss != [] {
      var init := kss[..|kss| - 1];
      TablesOfNames(init);
      forall n | n in TablesOf(kss) ensures n in (set k | 0 <= k < |kss| :: kss[k].name) {
        if n != kss[|kss| - 1].name {
          assert n in TablesOf(init);
          var k :| 0 <= k < |init| && init[k].name == n;
          assert kss[k].name == n;
        }
      }
    }
  }

  lemma CoreFieldsA(ks: Keyset)
    ensures var f := KeysetCore(ks);
      && Field(f, "cols") == Some(JInt(ks.cols))
      && Field(f, "rows") == Some(JInt(ks.rows))
      && Field(f, "start") == Some(JInt(ks.start))
  {
    var f := KeysetCore(ks);
    FieldAt(f, "cols", 0);
    FieldAt(f, "rows", 1);
    FieldAt(f, "start", 2);
  }

  lemma CoreFieldsB(ks: Keyset)
    ensures var f := KeysetCore(ks);
      && Field(f, "default_key") == Some(JInt(ks.defaultKey))
      && Field(f, "length") == Some(if ks.lengthExplicit then JInt(ks.length) else JNull)
      && Field(f, "alt_for") == Some(if ks.altFor.Some? then JStr(ks.altFor.value) else JNull)
      && Field(f, "keys") == None
  {
    var f := KeysetCore(ks);
    FieldAt(f, "default_key", 3);
    FieldAt(f, "length", 4);
    FieldAt(f, "alt_for", 5);
  }

  lemma EncodedKeysetFields(ks: Keyset)
    ensures var f := EncodeKeyset(ks).fields;
      && Field(f, "cols") == Some(JInt(ks.cols))
      && Field(f, "rows") == Some(JInt(ks.rows))
      && Field(f, "start") == Some(JInt(ks.start))
      && Field(f, "default_key") == Some(JInt(ks.defaultKey))
      && Field(f, "length") == Some(if ks.lengthExplicit then JInt(ks.length) else JNull)
      && Field(f, "alt_for") == Some(if ks.altFor.Some? then JStr(ks.altFor.value) else JNull)
      && (ks.storedKeys.Some? ==> Field(f, "keys") == Some(JArr(EncodeTable(ks.storedKeys.value))))
      && (ks.storedKeys.None? ==> Field(f, "keys") == None)
  {
    var core := KeysetCore(ks);
    var rest: seq<(string, Json)> :=
      if ks.storedKeys.Some? then [("keys", JArr(EncodeTable(ks.storedKeys.value)))] else [];
    CoreFieldsA(ks);
    CoreFieldsB(ks);
    FieldAppend(core, rest, "cols");
    FieldAppend(core, rest, "rows");
    FieldAppend(core, rest, "start");
    FieldAppend(core, rest, "default_key");
    FieldAppend(core, rest, "length");
    FieldAppend(core, rest, "alt_for");
    FieldAppend(core, rest, "keys");
    if ks.storedKeys.Some? {
      FieldAt(rest, "keys", 0);
    }
  }

  /** The table of an encoded keyset normalizes back to itself. */
  lemma NormalizeEncodedKeyset(ks: Keyset)
    requires ks.storedKeys.Some?
    ensures NormalizeKeys(EncodeKeyset(ks).fields) == Ok(ks.storedKeys.value)
  {
    EncodedKeysetFields(ks);
    EncodeTableRoundTrip(ks.storedKeys.value, JInt(ks.cols));
  }

  /** An object whose members carry a keyset's values builds the keyset the
      constructor makes of those values. */
  lemma BuildFromFields(ks: Keyset, f: seq<(string, Json)>, tables: map<string, KeyTable>, version: real)
    requires Field(f, "cols") == Some(JInt(ks.cols))
    requires Field(f, "rows") == Some(JInt(ks.rows))
    requires Field(f, "start") == Some(JInt(ks.start))
    requires Field(f, "default_key") == Some(JInt(ks.defaultKey))
    requires Field(f, "length") == Some(if ks.lengthExplicit then JInt(ks.length) else JNull)
    requires Field(f, "alt_for") == Some(if ks.altFor.Some? then JStr(ks.altFor.value) else JNull)
    ensures BuildKeyset(ks.name, JObj(f), tables, version)
         == NewKeyset(ks.name, ks.cols, ks.rows, ks.start, ks.defaultKey,
                      if ks.lengthExplicit then Some(ks.length) else None,
                      if ks.name in tables then Some(tables[ks.name]) else None, ks.altFor, version)
  {
    assert IntField(f, "cols") == Ok(ks.cols) && IntField(f, "rows") == Ok(ks.rows);
    assert IntField(f, "start") == Ok(ks.start) && IntField(f, "default_key") == Ok(ks.defaultKey);
    assert OptionalField(f, "alt_for") == if ks.altFor.Some? then Some(JStr(ks.altFor.value)) else None;
    assert OptionalField(f, "length") == if ks.lengthExplicit then Some(JInt(ks.length)) else None;
  }

  lemma EncodedKeysetBuilds(ks: Keyset, tables: map<string, KeyTable>, version: real)
    requires Rebuildable(ks, version)
    requires ks.storedKeys.Some? ==> ks.name in tables && tables[ks.name] == ks.storedKeys.value
    requires ks.storedKeys.None? ==> ks.name !in tables
    ensures BuildKeyset(ks.name, EncodeKeyset(ks), tables, version) == Ok(ks)
  {
    EncodedKeysetFields(ks);
    BuildFromFields(ks, EncodeKeyset(ks).fields, tables, version);
    assert (if ks.name in tables then Some(tables[ks.name]) else None) == ks.storedKeys;
  }

  lemma {:induction false} NormalizeAllEncoded(kss: seq<Keyset>)
    ensures NormalizeAll(EncodeKeysets(kss)) == Ok(TablesOf(kss))
    decreases |kss|
  {
    if kss != [] {
      var ks := kss[|kss| - 1];
      var members := EncodeKeysets(kss);
      var init := kss[..|kss| - 1];
      assert members[..|kss| - 1] == EncodeKeysets(init);
      assert members[|kss| - 1] == (ks.name, EncodeKeyset(ks));
      NormalizeAllEncoded(init);
      EncodedKeysetFields(ks);
      if ks.storedKeys.Some? {
        NormalizeEncodedKeyset(ks);
        assert NormalizeAll(members) == Ok(TablesOf(init)[ks.name := ks.storedKeys.value]);
      } else {
        assert NormalizeAll(members) == Ok(TablesOf(init));
      }
    }
  }

  lemma {:induction false} BuildKeysetsEncoded(kss: seq<Keyset>, tables: map<string, KeyTable>, version: real)
    requires forall i :: 0 <= i < |kss| ==> BuildKeyset(kss[i].name, EncodeKeyset(kss[i]), tables, version) == Ok(kss[i])
    ensures BuildKeysets(EncodeKeysets(kss), tables, version) == Ok(KeysetMap(kss))
    decreases |kss|
  {
    if kss != [] {
      var ks := kss[|kss| - 1];
      var members := EncodeKeysets(kss);
      var init := kss[..|kss| - 1];
      assert members[..|kss| - 1] == EncodeKeysets(init);
      assert members[|kss| - 1] == (ks.name, EncodeKeyset(ks));
      BuildKeysetsEncoded(init, tables, version);
      assert BuildKeysets(members, tables, version) == Ok(KeysetMap(init)[ks.name := ks]);
    }
  }

  lemma DocumentFields(version: real, name: string, description: Option<string>, kss: seq<Keyset>)
    ensures var top := EncodeDocument(version, name, description, kss).fields;
      && Field(top, "version") == Some(JReal(version))
      && Field(top, "name") == Some(JStr(name))
      && Field(top, "description") == Some(if description.Some? then JStr(description.value) else JNull)
      && Field(top, "keysets") == Some(JObj(EncodeKeysets(kss)))
  {
    var top := EncodeDocument(version, name, description, kss).fields;
    FieldAt(top, "version", 0);
    FieldAt(top, "name", 1);
    FieldAt(top, "description", 2);
    FieldAt(top, "keysets", 3);
  }

  lemma EncodedKeysetsBuild(kss: seq<Keyset>, version: real)
    requires DistinctNames(kss)
    requires forall i :: 0 <= i < |kss| ==> Rebuildable(kss[i], version)
    ensures BuildKeysets(EncodeKeysets(kss), TablesOf(kss), version) == Ok(KeysetMap(kss))
  {
    forall i | 0 <= i < |kss|
      ensures BuildKeyset(kss[i].name, EncodeKeyset(kss[i]), TablesOf(kss), version) == Ok(kss[i])
    {
      TablesOfLookup(kss, i);
      EncodedKeysetBuilds(kss[i], TablesOf(kss), version);
    }
    BuildKeysetsEncoded(kss, TablesOf(kss), version);
  }

  /** A document whose every step succeeds loads to the values the steps give. */
  lemma LoadSteps(top: seq<(string, Json)>, members: seq<(string, Json)>, tables: map<string, KeyTable>,
                  version: real, name: string, description: Option<string>, built: map<string, Keyset>)
    requires Field(top, "keysets") == Some(JObj(members))
    requires NormalizeAll(members) == Ok(tables)
    requires Version(top) == Ok(version)
    requires Field(top, "name") == Some(JStr(name))
    requires Field(top, "description") == Some(if description.Some? then JStr(description.value) else JNull)
    requires BuildKeysets(members, tables, version) == Ok(built)
    ensures DictToInstance(JObj(top)) == Ok(MetaData(version, name, description, built))
  {
    assert NameField(top) == Ok(name);
    assert DescriptionField(top) == Ok(description);
  }

  /** Writing keysets out as a document and loading it gives back the same
      metadata: the loader loses nothing a loadable keyset carries. */
  lemma {:induction false} DocumentRoundTrip(version: real, name: string, description: Option<string>, kss: seq<Keyset>)
    requires DistinctNames(kss)
    requires forall i :: 0 <= i < |kss| ==> Rebuildable(kss[i], version)
    ensures DictToInstance(EncodeDocument(version, name, description, kss))
         == Ok(MetaData(version, name, description, KeysetMap(kss)))
  {
    var members := EncodeKeysets(kss);
    DocumentFields(version, name, description, kss);
    NormalizeAllEncoded(kss);
    EncodedKeysetsBuild(kss, version);
    LoadSteps(EncodeDocument(version, name, description, kss).fields, members, TablesOf(kss),
              version, name, description, KeysetMap(kss));
  }
}
