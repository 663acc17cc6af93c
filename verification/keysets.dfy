/** The keyset model of src/lib/types.py: `KiroKeyset`, its `keys` property
    with alt_for indirection, and the parent wiring done by `KiroMetaData`.

    The parent back-reference is not stored in the keyset: the metadata that
    owns a keyset is passed explicitly to `Keys`, and `None` stands for a
    keyset whose parent was never set. */
module Keysets {
  import opened Results

  /** A glyph table: one entry per cell, `None` for a blank cell. */
  type KeyTable = seq<Option<string>>

  datatype Keyset = Keyset(
    name: string,
    cols: int,
    rows: int,
    start: int,
    length: int,
    lengthExplicit: bool,
    defaultKey: int,
    altFor: Option<string>,
    storedKeys: Option<KeyTable>,   // the `_keys` attribute behind the property
    version: real)

  datatype MetaData = MetaData(
    version: real,
    name: string,
    description: Option<string>,
    keysets: map<string, Keyset>)

  /** Python truthiness of `alt_for`: set and not the empty string. */
  predicate HasAltFor(ks: Keyset) {
    ks.altFor.Some? && ks.altFor.value != ""
  }

  /** `KiroKeyset.__init__`.  `length` is kept when truthy and otherwise
      inferred as `len(keys)`, which fails when `keys` is None. */
  function NewKeyset(
    name: string, cols: int, rows: int, start: int, defaultKey: int,
    length: Option<int>, keys: Option<KeyTable>, altFor: Option<string>, version: real
  ): (r: Result<Keyset, Error>)
    ensures r.Err? <==> (length.None? || length.value == 0) && keys.None?
    ensures r.Err? ==> r.error == NoLength
    ensures r.Ok? ==> (r.value.lengthExplicit <==> length.Some?)
    ensures r.Ok? && length.Some? && length.value != 0 ==> r.value.length == length.value
    ensures r.Ok? && (length.None? || length.value == 0) ==> r.value.length == |keys.value|
    ensures r.Ok? ==>
      && r.value.name == name && r.value.cols == cols && r.value.rows == rows
      && r.value.start == start && r.value.defaultKey == defaultKey
      && r.value.altFor == altFor && r.value.storedKeys == keys && r.value.version == version
  {
    var size: Option<int> :=
      if length.Some? && length.value != 0 then Some(length.value)
      else if keys.Some? then Some(|keys.value|)
      else None;
    if size.None? then Err(NoLength)
    else Ok(Keyset(name, cols, rows, start, size.value, length.Some?, defaultKey, altFor, keys, version))
  }

  /** The `keys` property getter.  Without alt_for it is the stored table.
      With alt_for it needs a parent; a target missing from the parent gives
      an empty table (with a warning), a target that itself has alt_for
      raises, and otherwise the getter ends without a return statement and
      yields None: it never hands back the target's table. */
  function Keys(ks: Keyset, parent: Option<MetaData>): (r: Result<Option<KeyTable>, Error>)
    ensures !HasAltFor(ks) ==> r == Ok(ks.storedKeys)
    ensures HasAltFor(ks) && r.Ok? ==> r.value == None || r.value == Some([])
    ensures r.Err? <==>
      (HasAltFor(ks) &&
       (parent.None? ||
        (ks.altFor.value in parent.value.keysets && HasAltFor(parent.value.keysets[ks.altFor.value]))))
  {
    if !HasAltFor(ks) then Ok(ks.storedKeys)
    else if parent.None? then Err(NoParent)
    else if ks.altFor.value !in parent.value.keysets then Ok(Some([]))
    else if HasAltFor(parent.value.keysets[ks.altFor.value]) then Err(ChainedAltFor)
    else Ok(None)
  }

  /** The `keys` property setter: replaces the stored table, nothing else. */
  function SetKeys(ks: Keyset, value: Option<KeyTable>): (r: Keyset)
    ensures r.storedKeys == value
    ensures r.(storedKeys := ks.storedKeys) == ks
  {
    ks.(storedKeys := value)
  }

  /** `KiroMetaData.__init__`.  Wiring the parents means that every keyset of
      the result resolves `keys` through the result itself (see `KeysIn`). */
  function NewMetaData(version: real, name: string, description: Option<string>,
                       keysets: map<string, Keyset>): (md: MetaData)
    ensures md.keysets == keysets
    ensures md.version == version && md.name == name && md.description == description
  {
    MetaData(version, name, description, keysets)
  }

  /** `keys` of the keyset named `n`, with its parent set to `md`. */
  function KeysIn(md: MetaData, n: string): Result<Option<KeyTable>, Error>
    requires n in md.keysets
  {
    Keys(md.keysets[n], Some(md))
  }

  /** The table a lookup actually works on: a None table used as a list
      (`in`, `.index`, `len`) raises. */
  function Table(ks: Keyset, parent: Option<MetaData>): (r: Result<KeyTable, Error>)
    ensures r.Ok? <==> Keys(ks, parent).Ok? && Keys(ks, parent).value.Some?
    ensures r.Ok? ==> r.value == Keys(ks, parent).value.value
  {
    match Keys(ks, parent)
    case Err(e) => Err(e)
    case Ok(None) => Err(NoTable)
    case Ok(Some(t)) => Ok(t)
  }

  // ---------------------------------------------------------------------------
  // Properties

  /** For a keyset without alt_for, `keys` returns exactly the table last
      given to the setter, whatever the parent. */
  lemma SetThenGetKeys(ks: Keyset, value: Option<KeyTable>, parent: Option<MetaData>)
    requires !HasAltFor(ks)
    ensures Keys(SetKeys(ks, value), parent) == Ok(value)
  {
  }

  /** For a keyset without alt_for, `keys` returns the table given to the constructor. */
  lemma ConstructedKeys(
    name: string, cols: int, rows: int, start: int, defaultKey: int,
    length: Option<int>, keys: Option<KeyTable>, altFor: Option<string>, version: real,
    parent: Option<MetaData>)
    requires altFor.None? || altFor == Some("")
    requires NewKeyset(name, cols, rows, start, defaultKey, length, keys, altFor, version).Ok?
    ensures Keys(NewKeyset(name, cols, rows, start, defaultKey, length, keys, altFor, version).value, parent)
      == Ok(keys)
  {
  }

  /** An explicit length of 0 is flagged explicit but replaced by the table size. */
  lemma ExplicitZeroLength(name: string, cols: int, rows: int, start: int, defaultKey: int,
                           keys: KeyTable, altFor: Option<string>, version: real)
    ensures NewKeyset(name, cols, rows, start, defaultKey, Some(0), Some(keys), altFor, version)
      == Ok(Keyset(name, cols, rows, start, |keys|, true, defaultKey, altFor, Some(keys), version))
  {
  }

  /** Resolution of alt_for inside a metadata object: a dangling target is an
      empty table, a chained target is an error, a root target yields None;
      a keyset outside any metadata cannot resolve alt_for at all. */
  lemma AltForResolution(md: MetaData, n: string)
    requires n in md.keysets && HasAltFor(md.keysets[n])
    ensures md.keysets[n].altFor.value !in md.keysets ==> KeysIn(md, n) == Ok(Some([]))
    ensures md.keysets[n].altFor.value in md.keysets && HasAltFor(md.keysets[md.keysets[n].altFor.value])
      ==> KeysIn(md, n) == Err(ChainedAltFor)
    ensures md.keysets[n].altFor.value in md.keysets && !HasAltFor(md.keysets[md.keysets[n].altFor.value])
      ==> KeysIn(md, n) == Ok(None) && Table(md.keysets[n], Some(md)) == Err(NoTable)
    ensures Keys(md.keysets[n], None) == Err(NoParent)
  {
  }
}
