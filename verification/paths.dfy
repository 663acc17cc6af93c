/** The file-name rewrite of `kiro_image_meta` (src/lib/kiro.py): the
    metadata file of an image is its basename with the extension replaced by
    `.kiro.json`, i.e. `re.sub(r'\.[^.]+$', '.kiro.json', basename)`.

    Only the basename rewrite is modelled; `abspath`, `dirname`, `join` and
    the existence test are file-system operations. */
module Paths {
  import opened Results

  const Suffix: string := ".kiro.json"

  /** The pattern `\.[^.]+$` matches at `i`: a dot followed by one or more
      characters, none of them a dot, up to the end of the name.  (`[^.]`
      also matches a newline, so `$` before a final newline never cuts a
      match short.) */
  predicate ExtensionAt(s: string, i: int) {
    0 <= i < |s| - 1 && s[i] == '.' && forall j :: i < j < |s| ==> s[j] != '.'
  }

  /** The position of the last dot of `s`. */
  function LastDot(s: string): (p: Option<nat>)
    ensures p.Some? ==> p.value < |s| && s[p.value] == '.'
    ensures p.Some? ==> forall j :: p.value < j < |s| ==> s[j] != '.'
    ensures p.None? ==> forall j :: 0 <= j < |s| ==> s[j] != '.'
  {
    if s == [] then None
    else if s[|s| - 1] == '.' then Some(|s| - 1)
    else LastDot(s[..|s| - 1])
  }

  /** The basename rewrite.  The pattern can match at one place at most (the
      last dot, when something follows it); a name without such a dot is
      left as it is. */
  function KiroJsonName(base: string): (r: string)
    ensures forall i :: ExtensionAt(base, i) ==> r == base[..i] + Suffix
    ensures (forall i :: 0 <= i < |base| ==> !ExtensionAt(base, i)) ==> r == base
  {
    match LastDot(base)
    case Some(i) =>
      if i < |base| - 1 then
        assert ExtensionAt(base, i);
        assert forall k :: ExtensionAt(base, k) ==> k == i;
        base[..i] + Suffix
      else base
    case None => base
  }

  /** A stem and an extension without dots: the extension is swapped for the
      metadata suffix, and the stem is kept whole, dots included. */
  lemma {:induction false} ReplacesExtension(stem: string, ext: string)
    requires ext != [] && forall j :: 0 <= j < |ext| ==> ext[j] != '.'
    ensures KiroJsonName(stem + "." + ext) == stem + Suffix
  {
    var s := stem + "." + ext;
    assert ExtensionAt(s, |stem|);
    assert s[..|stem|] == stem;
  }

  /** A name whose last character is a dot, or that has no dot, is unchanged. */
  lemma {:induction false} NoExtension(base: string)
    requires (forall j :: 0 <= j < |base| ==> base[j] != '.') || (base != [] && base[|base| - 1] == '.')
    ensures KiroJsonName(base) == base
  {
  }

  /** The result always names a `.kiro.json` file or is the name itself. */
  lemma {:induction false} ResultShape(base: string)
    ensures var r := KiroJsonName(base);
      r == base || (|r| >= |Suffix| && r[|r| - |Suffix|..] == Suffix)
  {
    var r := KiroJsonName(base);
    if r != base {
      var i := LastDot(base).value;
      assert r == base[..i] + Suffix;
      assert r[|r| - |Suffix|..] == Suffix;
    }
  }

  lemma Examples()
    ensures KiroJsonName("image1.png") == "image1.kiro.json"
    ensures KiroJsonName("archive.tar.gz") == "archive.tar.kiro.json"
    ensures KiroJsonName(".hidden") == ".kiro.json"
    ensures KiroJsonName("README") == "README"
    ensures KiroJsonName("trailing.") == "trailing."
  {
    ReplacesExtension("image1", "png");
    assert "image1" + "." + "png" == "image1.png";
    ReplacesExtension("archive.tar", "gz");
    assert "archive.tar" + "." + "gz" == "archive.tar.gz";
    ReplacesExtension("", "hidden");
    assert "" + "." + "hidden" == ".hidden";
    NoExtension("README");
    NoExtension("trailing.");
  }
}
