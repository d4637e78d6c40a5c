/**
 * The EPUB validator: a fixed series of checks over a ZIP archive (the mimetype entry, the
 * container document, the package document, the manifest files, and the external epubcheck
 * tool), each adding to the validator's error and warning lists. The archive is given as its
 * entries in order; XML parsing and the epubcheck run are inputs.
 */
module Validators {
  import opened Strings
  import opened Utils

  /** One archive entry: its name, whether it is stored uncompressed, and its decoded content. */
  datatype Entry = Entry(name: string, stored: bool, content: string)

  /** The entries of a readable ZIP file, or `None` when the file cannot be opened as one. */
  type Archive = Option<seq<Entry>>

  /** The media type the OCF container requires in the `mimetype` entry. */
  const EpubMimetype: string := "application/epub+zip"

  predicate HasName(entries: seq<Entry>, name: string)
  {
    exists i :: 0 <= i < |entries| && entries[i].name == name
  }

  /** The entry `getinfo`/`read` find for `name`: the last one so named. */
  function Lookup(entries: seq<Entry>, name: string): (r: Option<Entry>)
    ensures r.Some? <==> HasName(entries, name)
    ensures r.Some? ==> r.value.name == name && r.value in entries
  {
    if entries == [] then None
    else if entries[|entries| - 1].name == name then Some(entries[|entries| - 1])
    else
      var r := Lookup(entries[..|entries| - 1], name);
      assert forall i :: 0 <= i < |entries| - 1 ==> entries[..|entries| - 1][i] == entries[i];
      r
  }

  datatype ValidationError =
    | MimetypeNotFirst
    | MimetypeCompressed
    | InvalidMimetypeContent(content: string)
    | MimetypeUnreadable
    | NoRootfile
    | NoFullPath
    | OpfNotFound(path: string)
    | ContainerUnreadable
    | NoManifest
    | NoSpine
    | SpineIdrefNotInManifest(idref: string)
    | OpfUnreadable
    | ManifestFileNotFound(path: string)
    | FileCheckFailed
    | EpubcheckFailed(stderr: string)

  datatype ValidationWarning = EpubcheckTimedOut | EpubcheckNotFound | EpubcheckError(message: string)

  // ----- Stage specifications -----

  /** The error `validate_mimetype` adds, if any. */
  function MimetypeError(archive: Archive): (r: Option<ValidationError>)
    ensures r.None? <==> archive.Some? && MimetypeRule(archive.value)
  {
    match archive
    case None => Some(MimetypeUnreadable)
    case Some(entries) =>
      if entries == [] then Some(MimetypeUnreadable)
      else if entries[0].name != "mimetype" then Some(MimetypeNotFirst)
      else
        var info := Lookup(entries, "mimetype").value;
        if !info.stored then Some(MimetypeCompressed)
        else if Strip(info.content) != EpubMimetype then Some(InvalidMimetypeContent(info.content))
        else None
  }

  /** The OCF mimetype rule: first, stored, and naming the EPUB media type. */
  predicate MimetypeRule(entries: seq<Entry>)
  {
    && entries != [] && entries[0].name == "mimetype"
    && Lookup(entries, "mimetype").value.stored
    && Strip(Lookup(entries, "mimetype").value.content) == EpubMimetype
  }

  /** How the container document parses: malformed, without a rootfile, or a rootfile and its `full-path`. */
  datatype ContainerParse = ContainerMalformed | NoRootfileElement | RootfileElement(fullPath: Option<string>)

  datatype ContainerResult = OpfPath(path: string) | ContainerFailed(error: ValidationError)

  const ContainerName: string := "META-INF/container.xml"

  /** What `validate_container_xml` finds: a returned package path is non-empty and names an entry of the archive. */
  function ContainerCheck(archive: Archive, parseContainer: string -> ContainerParse): (r: ContainerResult)
    ensures r.OpfPath? ==> archive.Some? && r.path != "" && HasName(archive.value, r.path)
  {
    if archive.None? || !HasName(archive.value, ContainerName) then ContainerFailed(ContainerUnreadable)
    else
      match parseContainer(Lookup(archive.value, ContainerName).value.content)
      case ContainerMalformed => ContainerFailed(ContainerUnreadable)
      case NoRootfileElement => ContainerFailed(NoRootfile)
      case RootfileElement(fullPath) =>
        if fullPath.None? || fullPath.value == "" then ContainerFailed(NoFullPath)
        else if !HasName(archive.value, fullPath.value) then ContainerFailed(OpfNotFound(fullPath.value))
        else OpfPath(fullPath.value)
  }

  /** A manifest `item` as parsed: its `id` and `href` attributes, each possibly absent. */
  datatype RawItem = RawItem(id: Option<string>, href: Option<string>)

  /** How the package document parses: malformed, or its manifest items and spine idrefs (each part possibly absent). */
  datatype OpfParse = OpfMalformed | OpfDocument(manifest: Option<seq<RawItem>>, spine: Option<seq<Option<string>>>)

  /** A manifest entry kept by the validator. */
  datatype ManifestItem = ManifestItem(id: string, href: string)

  predicate Present(s: Option<string>)
  {
    s.Some? && s.value != ""
  }

  /** The items with a non-empty id and href, in order. */
  function KeptItems(raw: seq<RawItem>): seq<ManifestItem>
  {
    if raw == [] then []
    else
      var r := raw[|raw| - 1];
      KeptItems(raw[..|raw| - 1]) + (if Present(r.id) && Present(r.href) then [ManifestItem(r.id.value, r.href.value)] else [])
  }

  /** The non-empty spine idrefs, in order. */
  function KeptIdrefs(raw: seq<Option<string>>): seq<string>
  {
    if raw == [] then []
    else KeptIdrefs(raw[..|raw| - 1]) + (if Present(raw[|raw| - 1]) then [raw[|raw| - 1].value] else [])
  }

  predicate InManifest(items: seq<ManifestItem>, idref: string)
  {
    exists i :: 0 <= i < |items| && items[i].id == idref
  }

  /** One error per spine idref missing from the manifest, repeats included, in spine order. */
  function SpineErrors(items: seq<ManifestItem>, spine: seq<string>): seq<ValidationError>
  {
    if spine == [] then []
    else
      SpineErrors(items, spine[..|spine| - 1])
      + (if InManifest(items, spine[|spine| - 1]) then [] else [SpineIdrefNotInManifest(spine[|spine| - 1])])
  }

  /** What `validate_opf` returns and the errors it adds. */
  datatype OpfResult = OpfResult(items: seq<ManifestItem>, spine: seq<string>, errors: seq<ValidationError>)

  function OpfCheck(archive: Archive, opfPath: string, parseOpf: string -> OpfParse): OpfResult
  {
    if archive.None? || !HasName(archive.value, opfPath) then OpfResult([], [], [OpfUnreadable])
    else
      match parseOpf(Lookup(archive.value, opfPath).value.content)
      case OpfMalformed => OpfResult([], [], [OpfUnreadable])
      case OpfDocument(manifest, spine) =>
        if manifest.None? then OpfResult([], [], [NoManifest])
        else if spine.None? then OpfResult(KeptItems(manifest.value), [], [NoSpine])
        else
          var items := KeptItems(manifest.value);
          var order := KeptIdrefs(spine.value);
          OpfResult(items, order, SpineErrors(items, order))
  }

  lemma {:induction false} SpineErrorsEmpty(items: seq<ManifestItem>, spine: seq<string>)
    ensures SpineErrors(items, spine) == [] <==> forall k :: 0 <= k < |spine| ==> InManifest(items, spine[k])
  {
    if spine != [] {
      var init := spine[..|spine| - 1];
      SpineErrorsEmpty(items, init);
      assert forall k :: 0 <= k < |init| ==> init[k] == spine[k];
    }
  }

  /** Without spine errors every idref of the spine names a manifest item. */
  lemma OpfCheckSpineCovered(archive: Archive, opfPath: string, parseOpf: string -> OpfParse)
    ensures var r := OpfCheck(archive, opfPath, parseOpf);
      r.errors == [] ==> forall k :: 0 <= k < |r.spine| ==> InManifest(r.items, r.spine[k])
  {
    var r := OpfCheck(archive, opfPath, parseOpf);
    SpineErrorsEmpty(r.items, r.spine);
  }

  /** The name a manifest item is looked up under. */
  function ManifestPath(opfBase: string, href: string): string
  {
    if opfBase == "." then href else Replace(opfBase + "/" + href, "//", "/")
  }

  /** The package document's directory as `str(Path(opf_path).parent)` prints it. */
  function OpfBase(opfPath: string): string
  {
    PathStr(Parent(ParsePath(opfPath)))
  }

  /** Whether the file a manifest item names is an entry of the archive. */
  predicate FileFound(entries: seq<Entry>, opfBase: string, item: ManifestItem)
  {
    HasName(entries, ManifestPath(opfBase, item.href))
  }

  /** One error per manifest item whose path is not an entry name, in manifest order. */
  function MissingFileErrors(entries: seq<Entry>, opfBase: string, items: seq<ManifestItem>): seq<ValidationError>
  {
    if items == [] then []
    else
      MissingFileErrors(entries, opfBase, items[..|items| - 1])
      + (if FileFound(entries, opfBase, items[|items| - 1]) then []
         else [ManifestFileNotFound(ManifestPath(opfBase, items[|items| - 1].href))])
  }

  function FileErrors(archive: Archive, opfPath: string, items: seq<ManifestItem>): seq<ValidationError>
  {
    if archive.None? then [FileCheckFailed] else MissingFileErrors(archive.value, OpfBase(opfPath), items)
  }

  lemma {:induction false} MissingFileErrorsEmpty(entries: seq<Entry>, opfBase: string, items: seq<ManifestItem>)
    ensures MissingFileErrors(entries, opfBase, items) == [] <==>
      forall k :: 0 <= k < |items| ==> FileFound(entries, opfBase, items[k])
  {
    if items != [] {
      var init := items[..|items| - 1];
      var found := FileFound(entries, opfBase, items[|items| - 1]);
      MissingFileErrorsEmpty(entries, opfBase, init);
      assert forall k :: 0 <= k < |init| ==> init[k] == items[k];
      assert MissingFileErrors(entries, opfBase, items) == [] <==> MissingFileErrors(entries, opfBase, init) == [] && found;
    }
  }

  /** A path with no doubled slash is looked up as written. */
  lemma ManifestPathJoins(opfBase: string, href: string)
    requires opfBase != "." && !Contains(opfBase + "/" + href, "//")
    ensures ManifestPath(opfBase, href) == opfBase + "/" + href
  {
    ReplaceAbsent(opfBase + "/" + href, "//", "/");
  }

  /** How the epubcheck run ends. */
  datatype EpubcheckRun = Exited(code: int, stderr: string) | TimedOut | NotInstalled | Crashed(message: string)

  function EpubcheckErrors(run: EpubcheckRun): seq<ValidationError>
  {
    if run.Exited? && run.code != 0 then [EpubcheckFailed(run.stderr)] else []
  }

  function EpubcheckWarnings(run: EpubcheckRun): seq<ValidationWarning>
  {
    match run
    case Exited(_, _) => []
    case TimedOut => [EpubcheckTimedOut]
    case NotInstalled => [EpubcheckNotFound]
    case Crashed(message) => [EpubcheckError(message)]
  }

  /** The dictionary `validate_epub` returns. */
  datatype ValidationReport = ValidationReport(valid: bool, errors: seq<ValidationError>, warnings: seq<ValidationWarning>)

  /** `validate_epub`: the stages in order, stopping at the first that fails. */
  function ValidateEpubSpec(archive: Archive, parseContainer: string -> ContainerParse, parseOpf: string -> OpfParse,
                            run: EpubcheckRun): ValidationReport
  {
    if MimetypeError(archive).Some? then ValidationReport(false, [MimetypeError(archive).value], [])
    else
      match ContainerCheck(archive, parseContainer)
      case ContainerFailed(e) => ValidationReport(false, [e], [])
      case OpfPath(opfPath) =>
        var opf := OpfCheck(archive, opfPath, parseOpf);
        if opf.items == [] || opf.spine == [] then ValidationReport(false, opf.errors, [])
        else
          var errors := opf.errors + FileErrors(archive, opfPath, opf.items) + EpubcheckErrors(run);
          ValidationReport(errors == [], errors, EpubcheckWarnings(run))
  }

  /**
   * A valid report means every stage passed: the mimetype rule holds, the package document
   * exists, every spine idref is in the manifest, every manifest file is in the archive, and
   * epubcheck did not fail.
   */
  lemma ValidReportSound(archive: Archive, parseContainer: string -> ContainerParse, parseOpf: string -> OpfParse,
                         run: EpubcheckRun)
    requires ValidateEpubSpec(archive, parseContainer, parseOpf, run).valid
    ensures archive.Some? && MimetypeRule(archive.value)
    ensures ContainerCheck(archive, parseContainer).OpfPath?
    ensures HasName(archive.value, ContainerCheck(archive, parseContainer).path)
    ensures OpfCheck(archive, ContainerCheck(archive, parseContainer).path, parseOpf).items != []
    ensures OpfCheck(archive, ContainerCheck(archive, parseContainer).path, parseOpf).spine != []
    ensures var opf := OpfCheck(archive, ContainerCheck(archive, parseContainer).path, parseOpf);
      forall k :: 0 <= k < |opf.spine| ==> InManifest(opf.items, opf.spine[k])
    ensures var opfPath := ContainerCheck(archive, parseContainer).path;
      var opf := OpfCheck(archive, opfPath, parseOpf);
      forall k :: 0 <= k < |opf.items| ==> FileFound(archive.value, OpfBase(opfPath), opf.items[k])
    ensures !(run.Exited? && run.code != 0)
  {
    assert MimetypeError(archive).None?;
    var opfPath := ContainerCheck(archive, parseContainer).path;
    var opf := OpfCheck(archive, opfPath, parseOpf);
    assert ValidateEpubSpec(archive, parseContainer, parseOpf, run) ==
      (if opf.items == [] || opf.spine == [] then ValidationReport(false, opf.errors, [])
       else var errors := opf.errors + FileErrors(archive, opfPath, opf.items) + EpubcheckErrors(run);
            ValidationReport(errors == [], errors, EpubcheckWarnings(run)));
    assert opf.items != [] && opf.spine != [];
    assert opf.errors + FileErrors(archive, opfPath, opf.items) + EpubcheckErrors(run) == [];
    assert opf.errors == [] && FileErrors(archive, opfPath, opf.items) == [] && EpubcheckErrors(run) == [];
    assert forall k :: 0 <= k < |opf.spine| ==> InManifest(opf.items, opf.spine[k]) by {
      SpineErrorsEmpty(opf.items, opf.spine);
    }
    assert forall k :: 0 <= k < |opf.items| ==> FileFound(archive.value, OpfBase(opfPath), opf.items[k]) by {
      MissingFileErrorsEmpty(archive.value, OpfBase(opfPath), opf.items);
    }
  }

  /** A failing mimetype or container stage is the only error, and epubcheck never runs. */
  lemma EarlyFailureStops(archive: Archive, parseContainer: string -> ContainerParse, parseOpf: string -> OpfParse,
                          run: EpubcheckRun)
    ensures MimetypeError(archive).Some? ==>
      ValidateEpubSpec(archive, parseContainer, parseOpf, run) == ValidationReport(false, [MimetypeError(archive).value], [])
    ensures MimetypeError(archive).None? && ContainerCheck(archive, parseContainer).ContainerFailed? ==>
      ValidateEpubSpec(archive, parseContainer, parseOpf, run) ==
        ValidationReport(false, [ContainerCheck(archive, parseContainer).error], [])
  {
  }

  /** A timed-out, missing or crashing epubcheck only warns: the report is the same as after a clean run, plus one warning. */
  lemma EpubcheckOnlyFailsOnExitCode(archive: Archive, parseContainer: string -> ContainerParse, parseOpf: string -> OpfParse,
                                     run: EpubcheckRun, stderr: string)
    requires !run.Exited?
    ensures |EpubcheckWarnings(run)| == 1
    ensures ValidateEpubSpec(archive, parseContainer, parseOpf, run).valid ==
      ValidateEpubSpec(archive, parseContainer, parseOpf, Exited(0, stderr)).valid
    ensures ValidateEpubSpec(archive, parseContainer, parseOpf, run).errors ==
      ValidateEpubSpec(archive, parseContainer, parseOpf, Exited(0, stderr)).errors
  {
  }

  // ----- The validator object -----

  /** The validator and the errors and warnings its checks have added. */
  class EpubValidator {
    var errors: seq<ValidationError>
    var warnings: seq<ValidationWarning>

    constructor()
      ensures errors == [] && warnings == []
    {
      errors := [];
      warnings := [];
    }

    /** `validate_mimetype`. */
    method ValidateMimetype(archive: Archive) returns (ok: bool)
      modifies this
      ensures ok <==> MimetypeError(archive).None?
      ensures errors == old(errors) + (if ok then [] else [MimetypeError(archive).value])
      ensures warnings == old(warnings)
    {
      if archive.None? || archive.value == [] {
        errors := errors + [MimetypeUnreadable];
        return false;
      }
      var entries := archive.value;
      if entries[0].name != "mimetype" {
        errors := errors + [MimetypeNotFirst];
        return false;
      }
      var info := Lookup(entries, "mimetype").value;
      if !info.stored {
        errors := errors + [MimetypeCompressed];
        return false;
      }
      if Strip(info.content) != EpubMimetype {
        errors := errors + [InvalidMimetypeContent(info.content)];
        return false;
      }
      return true;
    }

    /** `validate_container_xml`. */
    method ValidateContainerXml(archive: Archive, parseContainer: string -> ContainerParse) returns (opfPath: Option<string>)
      modifies this
      ensures opfPath.Some? <==> ContainerCheck(archive, parseContainer).OpfPath?
      ensures opfPath.Some? ==> opfPath.value == ContainerCheck(archive, parseContainer).path && errors == old(errors)
      ensures opfPath.None? ==> errors == old(errors) + [ContainerCheck(archive, parseContainer).error]
      ensures warnings == old(warnings)
    {
      match ContainerCheck(archive, parseContainer) {
        case OpfPath(path) =>
          opfPath := Some(path);
        case ContainerFailed(e) =>
          errors := errors + [e];
          opfPath := None;
      }
    }

    /** The manifest loop of `validate_opf`. */
    static method CollectItems(raw: seq<RawItem>) returns (items: seq<ManifestItem>)
      ensures items == KeptItems(raw)
    {
      items := [];
      for k := 0 to |raw|
        invariant items == KeptItems(raw[..k])
      {
        assert raw[..k + 1][..k] == raw[..k];
        if Present(raw[k].id) && Present(raw[k].href) {
          items := items + [ManifestItem(raw[k].id.value, raw[k].href.value)];
        }
      }
      assert raw[..|raw|] == raw;
    }

    /** The spine loop of `validate_opf`. */
    static method CollectIdrefs(raw: seq<Option<string>>) returns (order: seq<string>)
      ensures order == KeptIdrefs(raw)
    {
      order := [];
      for k := 0 to |raw|
        invariant order == KeptIdrefs(raw[..k])
      {
        assert raw[..k + 1][..k] == raw[..k];
        if Present(raw[k]) {
          order := order + [raw[k].value];
        }
      }
      assert raw[..|raw|] == raw;
    }

    /** The reference check of `validate_opf`: one error per spine idref not in the manifest. */
    method CheckSpine(items: seq<ManifestItem>, order: seq<string>)
      modifies this
      ensures errors == old(errors) + SpineErrors(items, order)
      ensures warnings == old(warnings)
    {
      ghost var before := errors;
      for k := 0 to |order|
        invariant errors == before + SpineErrors(items, order[..k])
        invariant warnings == old(warnings)
      {
        assert order[..k + 1][..k] == order[..k];
        if !InManifest(items, order[k]) {
          errors := errors + [SpineIdrefNotInManifest(order[k])];
        }
      }
      assert order[..|order|] == order;
    }

    /** `validate_opf`. */
    method ValidateOpf(archive: Archive, opfPath: string, parseOpf: string -> OpfParse)
      returns (items: seq<ManifestItem>, order: seq<string>)
      modifies this
      ensures items == OpfCheck(archive, opfPath, parseOpf).items
      ensures order == OpfCheck(archive, opfPath, parseOpf).spine
      ensures errors == old(errors) + OpfCheck(archive, opfPath, parseOpf).errors
      ensures warnings == old(warnings)
    {
      if archive.None? || !HasName(archive.value, opfPath) {
        errors := errors + [OpfUnreadable];
        return [], [];
      }
      match parseOpf(Lookup(archive.value, opfPath).value.content) {
        case OpfMalformed =>
          errors := errors + [OpfUnreadable];
          return [], [];
        case OpfDocument(manifest, spine) =>
          if manifest.None? {
            errors := errors + [NoManifest];
            return [], [];
          }
          items := CollectItems(manifest.value);
          if spine.None? {
            errors := errors + [NoSpine];
            return items, [];
          }
          order := CollectIdrefs(spine.value);
          CheckSpine(items, order);
      }
    }

    /** `validate_file_existence`: true exactly when no error at all has been recorded, earlier ones included. */
    method ValidateFileExistence(archive: Archive, opfPath: string, items: seq<ManifestItem>) returns (ok: bool)
      modifies this
      ensures errors == old(errors) + FileErrors(archive, opfPath, items)
      ensures warnings == old(warnings)
      ensures ok <==> archive.Some? && errors == []
    {
      if archive.None? {
        errors := errors + [FileCheckFailed];
        return false;
      }
      var opfBase := OpfBase(opfPath);
      ghost var before := errors;
      for k := 0 to |items|
        invariant errors == before + MissingFileErrors(archive.value, opfBase, items[..k])
        invariant warnings == old(warnings)
      {
        assert items[..k + 1][..k] == items[..k];
        if !FileFound(archive.value, opfBase, items[k]) {
          errors := errors + [ManifestFileNotFound(ManifestPath(opfBase, items[k].href))];
        }
      }
      assert items[..|items|] == items;
      ok := |errors| == 0;
    }

    /** `run_epubcheck`: only a non-zero exit is an error; every other failure is a warning. */
    method RunEpubcheck(run: EpubcheckRun) returns (ok: bool)
      modifies this
      ensures ok <==> EpubcheckErrors(run) == []
      ensures errors == old(errors) + EpubcheckErrors(run)
      ensures warnings == old(warnings) + EpubcheckWarnings(run)
    {
      match run {
        case Exited(code, stderr) =>
          if code != 0 {
            errors := errors + [EpubcheckFailed(stderr)];
            return false;
          }
          return true;
        case TimedOut =>
          warnings := warnings + [EpubcheckTimedOut];
          return true;
        case NotInstalled =>
          warnings := warnings + [EpubcheckNotFound];
          return true;
        case Crashed(message) =>
          warnings := warnings + [EpubcheckError(message)];
          return true;
      }
    }

    /** `validate_epub`: the lists are reset, then the stages run until one fails. */
    method ValidateEpub(archive: Archive, parseContainer: string -> ContainerParse, parseOpf: string -> OpfParse,
                        run: EpubcheckRun) returns (report: ValidationReport)
      modifies this
      ensures report == ValidateEpubSpec(archive, parseContainer, parseOpf, run)
      ensures errors == report.errors && warnings == report.warnings
    {
      errors := [];
      warnings := [];
      var mimetypeOk := ValidateMimetype(archive);
      if !mimetypeOk {
        return ValidationReport(false, errors, warnings);
      }
      var opfPath := ValidateContainerXml(archive, parseContainer);
      if opfPath.None? {
        return ValidationReport(false, errors, warnings);
      }
      ghost var opf := OpfCheck(archive, opfPath.value, parseOpf);
      var items, order := ValidateOpf(archive, opfPath.value, parseOpf);
      if items == [] || order == [] {
        return ValidationReport(false, errors, warnings);
      }
      assert errors == opf.errors && warnings == [];
      var _ := ValidateFileExistence(archive, opfPath.value, items);
      var _ := RunEpubcheck(run);
      assert errors == opf.errors + FileErrors(archive, opfPath.value, opf.items) + EpubcheckErrors(run);
      report := ValidationReport(errors == [], errors, warnings);
    }
  }
}
