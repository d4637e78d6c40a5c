/**
 * Path helpers of the back end: `normalize_zip_path`, which places a manifest href relative to
 * the package document's directory, and the extension test `is_allowed_file_type`.
 * `pathlib` paths are modelled by their normalised form: a root flag and the components left
 * once empty and `.` pieces are dropped.
 */
module Utils {
  import opened Strings

  /** A POSIX `pathlib` path: absolute or not, and its components. */
  datatype PurePath = PurePath(absolute: bool, parts: seq<string>)

  /** The pieces `pathlib` keeps: neither empty nor `.`. */
  function KeepParts(pieces: seq<string>): (r: seq<string>)
    ensures |r| <= |pieces|
  {
    if pieces == [] then []
    else
      var rest := KeepParts(pieces[1..]);
      if pieces[0] == "" || pieces[0] == "." then rest else [pieces[0]] + rest
  }

  /** `Path(p)`. */
  function ParsePath(p: string): PurePath
  {
    PurePath(StartsWith(p, "/"), KeepParts(Split(p, '/')))
  }

  /** `str(path)`: an empty relative path prints as `.`. */
  function PathStr(p: PurePath): string
  {
    if p.absolute then "/" + Join(p.parts, "/")
    else if p.parts == [] then "."
    else Join(p.parts, "/")
  }

  /** `path.parent`: the last component dropped; `.` and `/` are their own parents. */
  function Parent(p: PurePath): PurePath
  {
    if p.parts == [] then p else PurePath(p.absolute, p.parts[..|p.parts| - 1])
  }

  /** `base / href`: an absolute `href` replaces the base. */
  function JoinPath(base: PurePath, href: string): PurePath
  {
    var h := ParsePath(href);
    if h.absolute then h else PurePath(base.absolute, base.parts + h.parts)
  }

  /** `normalize_zip_path(opf_base, href)`. */
  function NormalizeZipPath(opfBase: string, href: string): (r: string)
    ensures opfBase == "." ==> r == href
    ensures opfBase != "." ==> '\\' !in r
  {
    if opfBase == "." then href
    else
      var joined := PathStr(JoinPath(Parent(ParsePath(opfBase)), href));
      ReplaceCharRemoves(joined, '\\', "/");
      Replace(joined, "\\", "/")
  }

  /** `Path(".")` has no components. */
  lemma DotHasNoParts()
    ensures ParsePath(".").parts == []
  {
    assert "."[1..] == [];
    assert Split(".", '/') == [['.'] + []];
    assert ['.'] + [] == ".";
  }

  /** Joining two non-empty runs of components puts one separator between them. */
  lemma {:induction false} JoinAppend(xs: seq<string>, ys: seq<string>, sep: string)
    requires xs != [] && ys != []
    ensures Join(xs + ys, sep) == Join(xs, sep) + sep + Join(ys, sep)
  {
    if |xs| == 1 {
      assert (xs + ys)[1..] == ys;
    } else {
      assert (xs + ys)[1..] == xs[1..] + ys;
      JoinAppend(xs[1..], ys, sep);
    }
  }

  /**
   * With a base of a single relative component (a package document at the top of the archive
   * such as "content.opf", or a directory name such as "OEBPS"), the parent is `.`, so a
   * relative href already in `pathlib`'s printed form and free of backslashes comes back alone.
   */
  lemma OneSegmentBaseKeepsHref(opfBase: string, href: string)
    requires ParsePath(opfBase).absolute == false && |ParsePath(opfBase).parts| == 1
    requires PathStr(ParsePath(href)) == href && '\\' !in href
    ensures NormalizeZipPath(opfBase, href) == href
  {
    var h := ParsePath(href);
    if !h.absolute {
      assert JoinPath(Parent(ParsePath(opfBase)), href) == PurePath(false, [] + h.parts);
      assert [] + h.parts == h.parts;
    }
    ContainsCharIn(href, '\\');
    ReplaceAbsent(href, "\\", "/");
  }

  /**
   * With a base `d1/.../dk/file` (k >= 1), a relative, already normal href lands under
   * `d1/.../dk/`.
   */
  lemma NestedBaseJoinsHref(opfBase: string, href: string, dirs: seq<string>, file: string)
    requires ParsePath(opfBase) == PurePath(false, dirs + [file]) && dirs != []
    requires !StartsWith(href, "/") && ParsePath(href).parts != []
    requires PathStr(ParsePath(href)) == href
    requires '\\' !in Join(dirs, "/") + "/" + href
    ensures NormalizeZipPath(opfBase, href) == Join(dirs, "/") + "/" + href
  {
    DotHasNoParts();
    var h := ParsePath(href);
    assert (dirs + [file])[..|dirs + [file]| - 1] == dirs;
    assert JoinPath(Parent(ParsePath(opfBase)), href) == PurePath(false, dirs + h.parts);
    assert Join(h.parts, "/") == href;
    JoinAppend(dirs, h.parts, "/");
    assert PathStr(PurePath(false, dirs + h.parts)) == Join(dirs, "/") + "/" + href;
    ContainsCharIn(Join(dirs, "/") + "/" + href, '\\');
    ReplaceAbsent(Join(dirs, "/") + "/" + href, "\\", "/");
  }

  /** `any(filename.lower().endswith(ext) for ext in allowed_extensions)`. */
  function IsAllowedFileType(filename: string, allowedExtensions: seq<string>): (r: bool)
    ensures r <==> exists k :: 0 <= k < |allowedExtensions| && EndsWith(Lower(filename), allowedExtensions[k])
  {
    if allowedExtensions == [] then false
    else if EndsWith(Lower(filename), allowedExtensions[0]) then true
    else
      var rest := IsAllowedFileType(filename, allowedExtensions[1..]);
      assert forall k :: 1 <= k < |allowedExtensions| ==> allowedExtensions[k] == allowedExtensions[1..][k - 1];
      rest
  }
}
