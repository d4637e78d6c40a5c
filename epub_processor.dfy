/**
 * The first EPUB processor: paragraph blocks are found in an lxml tree and replaced by anchor,
 * chapters are listed in spine order, and the unpacked book is zipped back with its
 * `mimetype` entry first. Its chapter translation never gets as far as translating.
 */
module EpubProcessor {
  import opened Strings
  import opened HtmlTree
  import opened Validators

  /** Elements whose whole subtree is never translated. */
  const SkipTags: set<string> := {"script", "style", "code", "pre", "meta", "link", "title", "head"}
  const SkipContainers: set<string> := {"head"}

  /** Elements translated as one block of text. */
  const ParagraphTags: set<string> :=
    {"p", "h1", "h2", "h3", "h4", "h5", "h6", "blockquote", "li", "td", "th", "dt", "dd"}

  /** `f"{element.tag}_{id(element)}"`: the element's tag as written and its identity. */
  datatype Anchor = Anchor(tag: string, id: nat)

  /** A paragraph's stripped text and the anchor of the element it came from. */
  datatype Block = Block(text: string, anchor: Anchor)

  predicate Skipped(tag: string)
  {
    Lower(tag) in SkipContainers || Lower(tag) in SkipTags
  }

  /** Number of nodes, the measure the walks below decrease. */
  function Size(n: Node): (r: nat)
    ensures r >= 1
  {
    match n
    case Text(_) => 1
    case Element(_, _, _, children) => 1 + SizeList(children)
  }

  function SizeList(cs: seq<Node>): nat
  {
    if cs == [] then 0 else Size(cs[0]) + SizeList(cs[1..])
  }

  /** Every paragraph-tag element at any depth, with its stripped text content and anchor. */
  function Candidates(n: Node): set<Block>
  {
    match n
    case Text(_) => {}
    case Element(tag, _, id, children) =>
      (if Lower(tag) in ParagraphTags then {Block(Strip(TextContent(n)), Anchor(tag, id))} else {})
      + CandidatesList(children)
  }

  function CandidatesList(cs: seq<Node>): set<Block>
  {
    if cs == [] then {} else Candidates(cs[0]) + CandidatesList(cs[1..])
  }

  /** `element.find('.//body')` for an element with contents `cs`: the first `body` below it in document order. */
  function FindBodyList(cs: seq<Node>): (r: Option<Node>)
    ensures r.Some? ==> r.value.Element? && r.value.tag == "body"
    ensures r.Some? ==> Size(r.value) <= SizeList(cs) && Candidates(r.value) <= CandidatesList(cs)
  {
    if cs == [] then None
    else if cs[0].Element? && cs[0].tag == "body" then Some(cs[0])
    else if cs[0].Element? && FindBodyList(cs[0].children).Some? then FindBodyList(cs[0].children)
    else FindBodyList(cs[1..])
  }

  // ----- extract_safe_texts -----

  /**
   * `extract_safe_texts`: skipped subtrees give nothing, an `html` element defers to its first
   * body, a paragraph element gives its whole stripped text once (if longer than ten
   * characters) without visiting its children, and any other element concatenates its
   * children's blocks.
   */
  function ExtractSafeTexts(n: Node): (r: seq<Block>)
    ensures n.Element? && Skipped(n.tag) ==> r == []
    ensures n.Element? && Lower(n.tag) in ParagraphTags ==>
      |r| <= 1 && forall b | b in r :: b.anchor == Anchor(n.tag, n.id)
    ensures n.Element? && !Skipped(n.tag) && Lower(n.tag) in ParagraphTags ==>
      r == (if |Strip(TextContent(n))| > 10 then [Block(Strip(TextContent(n)), Anchor(n.tag, n.id))] else [])
    decreases Size(n), 1
  {
    match n
    case Text(_) => []
    case Element(tag, _, id, children) =>
      if Skipped(tag) then []
      else if Lower(tag) == "html" then
        match FindBodyList(children)
        case Some(body) => ExtractSafeTexts(body)
        case None => ExtractExceptHead(children)
      else if Lower(tag) in ParagraphTags then
        var text := Strip(TextContent(n));
        if text != "" && |text| > 10 then [Block(text, Anchor(tag, id))] else []
      else ExtractList(children)
  }

  /** The child loop: blocks of every child element, in order. */
  function ExtractList(cs: seq<Node>): seq<Block>
    decreases SizeList(cs), 2
  {
    if cs == [] then [] else ExtractSafeTexts(cs[0]) + ExtractList(cs[1..])
  }

  /** The child loop of a body-less `html` element, which passes over `head` children. */
  function ExtractExceptHead(cs: seq<Node>): seq<Block>
    decreases SizeList(cs), 2
  {
    if cs == [] then []
    else
      (if cs[0].Element? && Lower(cs[0].tag) == "head" then [] else ExtractSafeTexts(cs[0]))
      + ExtractExceptHead(cs[1..])
  }

  /** Every extracted block is some paragraph element's stripped text, longer than ten characters. */
  lemma {:induction false} ExtractSound(n: Node)
    ensures forall b | b in ExtractSafeTexts(n) :: b in Candidates(n) && |b.text| > 10
    decreases Size(n), 1
  {
    match n
    case Text(_) =>
    case Element(tag, _, id, children) =>
      if Skipped(tag) {
      } else if Lower(tag) == "html" {
        match FindBodyList(children)
        case Some(body) =>
          ExtractSound(body);
        case None =>
          ExtractExceptHeadSound(children);
      } else if Lower(tag) in ParagraphTags {
      } else {
        ExtractListSound(children);
      }
  }

  lemma {:induction false} ExtractListSound(cs: seq<Node>)
    ensures forall b | b in ExtractList(cs) :: b in CandidatesList(cs) && |b.text| > 10
    decreases SizeList(cs), 2
  {
    if cs != [] {
      ExtractSound(cs[0]);
      ExtractListSound(cs[1..]);
    }
  }

  lemma {:induction false} ExtractExceptHeadSound(cs: seq<Node>)
    ensures forall b | b in ExtractExceptHead(cs) :: b in CandidatesList(cs) && |b.text| > 10
    decreases SizeList(cs), 2
  {
    if cs != [] {
      ExtractSound(cs[0]);
      ExtractExceptHeadSound(cs[1..]);
    }
  }

  /**
   * The paragraph elements the walk reaches, as blocks whatever their length: it stops at a
   * skipped element and at a paragraph element, enters only the first body of an `html`
   * element (or, without one, its children other than `head`), and enters every other element.
   */
  function ReachedBlocks(n: Node): set<Block>
    decreases Size(n), 1
  {
    match n
    case Text(_) => {}
    case Element(tag, _, id, children) =>
      if Skipped(tag) then {}
      else if Lower(tag) == "html" then
        match FindBodyList(children)
        case Some(body) => ReachedBlocks(body)
        case None => ReachedExceptHead(children)
      else if Lower(tag) in ParagraphTags then {Block(Strip(TextContent(n)), Anchor(tag, id))}
      else ReachedList(children)
  }

  function ReachedList(cs: seq<Node>): set<Block>
    decreases SizeList(cs), 2
  {
    if cs == [] then {} else ReachedBlocks(cs[0]) + ReachedList(cs[1..])
  }

  function ReachedExceptHead(cs: seq<Node>): set<Block>
    decreases SizeList(cs), 2
  {
    if cs == [] then {}
    else
      (if cs[0].Element? && Lower(cs[0].tag) == "head" then {} else ReachedBlocks(cs[0]))
      + ReachedExceptHead(cs[1..])
  }

  /** A block is extracted exactly when the walk reaches its paragraph and its text is longer than ten characters. */
  lemma {:induction false} ExtractComplete(n: Node)
    ensures forall b :: b in ExtractSafeTexts(n) <==> b in ReachedBlocks(n) && |b.text| > 10
    decreases Size(n), 1
  {
    match n
    case Text(_) =>
    case Element(tag, _, id, children) =>
      if Skipped(tag) {
      } else if Lower(tag) == "html" {
        match FindBodyList(children)
        case Some(body) =>
          ExtractComplete(body);
        case None =>
          ExtractExceptHeadComplete(children);
      } else if Lower(tag) in ParagraphTags {
      } else {
        ExtractListComplete(children);
      }
  }

  lemma {:induction false} ExtractListComplete(cs: seq<Node>)
    ensures forall b :: b in ExtractList(cs) <==> b in ReachedList(cs) && |b.text| > 10
    decreases SizeList(cs), 2
  {
    if cs != [] {
      ExtractComplete(cs[0]);
      ExtractListComplete(cs[1..]);
    }
  }

  lemma {:induction false} ExtractExceptHeadComplete(cs: seq<Node>)
    ensures forall b :: b in ExtractExceptHead(cs) <==> b in ReachedExceptHead(cs) && |b.text| > 10
    decreases SizeList(cs), 2
  {
    if cs != [] {
      ExtractComplete(cs[0]);
      ExtractExceptHeadComplete(cs[1..]);
    }
  }

  /** Passing over `head` children changes nothing: a `head` element is skipped anyway. */
  lemma {:induction false} HeadCheckRedundant(cs: seq<Node>)
    ensures ExtractExceptHead(cs) == ExtractList(cs)
  {
    if cs != [] {
      HeadCheckRedundant(cs[1..]);
      if cs[0].Element? && Lower(cs[0].tag) == "head" {
        assert Skipped(cs[0].tag);
      }
    }
  }

  // ----- replace_safe_texts -----

  /** A paragraph element whose anchor is mapped to a text that has a translation. */
  predicate Matched(n: Node, translations: map<string, string>, elementMap: map<Anchor, string>)
  {
    && n.Element? && !Skipped(n.tag) && Lower(n.tag) != "html" && Lower(n.tag) in ParagraphTags
    && Anchor(n.tag, n.id) in elementMap && elementMap[Anchor(n.tag, n.id)] in translations
  }

  /** lxml's `clear()` then `.text = text`: children, attributes and text replaced by the one new text. */
  function Cleared(n: Node, text: string): Node
    requires n.Element?
  {
    Element(n.tag, [], n.id, [Text(text)])
  }

  /** Character data directly after an element: its lxml `tail`. */
  function DropTail(cs: seq<Node>): (r: seq<Node>)
    ensures SizeList(r) <= SizeList(cs)
  {
    if cs != [] && cs[0].Text? then DropTail(cs[1..]) else cs
  }

  /**
   * `replace_safe_texts` on one node, in place: skipped subtrees are untouched, `html` defers
   * to its first body, a matched paragraph is cleared and given its translation, and other
   * elements recurse into their children.
   */
  function ReplaceSafeTexts(n: Node, translations: map<string, string>, elementMap: map<Anchor, string>): (r: Node)
    ensures n.Text? ==> r == n
    ensures n.Element? ==> r.Element? && r.tag == n.tag && r.id == n.id
    ensures n.Element? && Skipped(n.tag) ==> r == n
    ensures n.Element? && Lower(n.tag) in ParagraphTags && Lower(n.tag) != "html" && !Skipped(n.tag) ==>
      r == (if Matched(n, translations, elementMap) then Cleared(n, translations[elementMap[Anchor(n.tag, n.id)]]) else n)
    decreases Size(n), 1
  {
    match n
    case Text(_) => n
    case Element(tag, attrs, id, children) =>
      if Skipped(tag) then n
      else if Lower(tag) == "html" then
        match ReplaceInBody(children, translations, elementMap)
        case Some(replaced) => Element(tag, attrs, id, replaced)
        case None => Element(tag, attrs, id, ReplaceExceptHead(children, translations, elementMap))
      else if Lower(tag) in ParagraphTags then
        if Matched(n, translations, elementMap) then Cleared(n, translations[elementMap[Anchor(tag, id)]]) else n
      else Element(tag, attrs, id, ReplaceList(children, translations, elementMap))
  }

  /** The child loop; `clear()` also removes the tail, so a cleared child's following character data goes. */
  function ReplaceList(cs: seq<Node>, translations: map<string, string>, elementMap: map<Anchor, string>): seq<Node>
    decreases SizeList(cs), 2
  {
    if cs == [] then []
    else
      [ReplaceSafeTexts(cs[0], translations, elementMap)]
      + ReplaceList(if Matched(cs[0], translations, elementMap) then DropTail(cs[1..]) else cs[1..], translations, elementMap)
  }

  /** The child loop of a body-less `html` element, passing over `head` children. */
  function ReplaceExceptHead(cs: seq<Node>, translations: map<string, string>, elementMap: map<Anchor, string>): seq<Node>
    decreases SizeList(cs), 2
  {
    if cs == [] then []
    else
      [if cs[0].Element? && Lower(cs[0].tag) == "head" then cs[0] else ReplaceSafeTexts(cs[0], translations, elementMap)]
      + ReplaceExceptHead(if Matched(cs[0], translations, elementMap) then DropTail(cs[1..]) else cs[1..], translations, elementMap)
  }

  /** Contents `cs` with the first `body` below them replaced in place, or `None` when there is no body. */
  function ReplaceInBody(cs: seq<Node>, translations: map<string, string>, elementMap: map<Anchor, string>): (r: Option<seq<Node>>)
    ensures r.Some? <==> FindBodyList(cs).Some?
    decreases SizeList(cs), 2
  {
    if cs == [] then None
    else if cs[0].Element? && cs[0].tag == "body" then Some([ReplaceSafeTexts(cs[0], translations, elementMap)] + cs[1..])
    else if cs[0].Element? && (assert SizeList(cs[0].children) < Size(cs[0]);
                               ReplaceInBody(cs[0].children, translations, elementMap).Some?) then
      var c := cs[0];
      Some([Element(c.tag, c.attrs, c.id, ReplaceInBody(c.children, translations, elementMap).value)] + cs[1..])
    else
      match ReplaceInBody(cs[1..], translations, elementMap)
      case Some(rest) => Some([cs[0]] + rest)
      case None => None
  }

  predicate NothingMatches(translations: map<string, string>, elementMap: map<Anchor, string>)
  {
    forall a | a in elementMap :: elementMap[a] !in translations
  }

  /** When no mapped text has a translation, the tree is left exactly as it was. */
  lemma {:induction false} ReplaceUnmatchedIdentity(n: Node, translations: map<string, string>, elementMap: map<Anchor, string>)
    requires NothingMatches(translations, elementMap)
    ensures ReplaceSafeTexts(n, translations, elementMap) == n
    decreases Size(n), 1
  {
    match n
    case Text(_) =>
    case Element(tag, attrs, id, children) =>
      if Skipped(tag) {
      } else if Lower(tag) == "html" {
        ReplaceInBodyUnmatched(children, translations, elementMap);
        ReplaceExceptHeadUnmatched(children, translations, elementMap);
      } else if Lower(tag) in ParagraphTags {
      } else {
        ReplaceListUnmatched(children, translations, elementMap);
      }
  }

  lemma {:induction false} ReplaceListUnmatched(cs: seq<Node>, translations: map<string, string>, elementMap: map<Anchor, string>)
    requires NothingMatches(translations, elementMap)
    ensures ReplaceList(cs, translations, elementMap) == cs
    decreases SizeList(cs), 2
  {
    if cs != [] {
      ReplaceUnmatchedIdentity(cs[0], translations, elementMap);
      ReplaceListUnmatched(cs[1..], translations, elementMap);
    }
  }

  lemma {:induction false} ReplaceExceptHeadUnmatched(cs: seq<Node>, translations: map<string, string>, elementMap: map<Anchor, string>)
    requires NothingMatches(translations, elementMap)
    ensures ReplaceExceptHead(cs, translations, elementMap) == cs
    decreases SizeList(cs), 2
  {
    if cs != [] {
      ReplaceUnmatchedIdentity(cs[0], translations, elementMap);
      ReplaceExceptHeadUnmatched(cs[1..], translations, elementMap);
    }
  }

  lemma {:induction false} ReplaceInBodyUnmatched(cs: seq<Node>, translations: map<string, string>, elementMap: map<Anchor, string>)
    requires NothingMatches(translations, elementMap)
    ensures ReplaceInBody(cs, translations, elementMap).Some? ==> ReplaceInBody(cs, translations, elementMap).value == cs
    decreases SizeList(cs), 2
  {
    if cs != [] {
      if cs[0].Element? && cs[0].tag == "body" {
        ReplaceUnmatchedIdentity(cs[0], translations, elementMap);
      } else if cs[0].Element? && ReplaceInBody(cs[0].children, translations, elementMap).Some? {
        assert SizeList(cs[0].children) < Size(cs[0]);
        ReplaceInBodyUnmatched(cs[0].children, translations, elementMap);
      } else {
        ReplaceInBodyUnmatched(cs[1..], translations, elementMap);
      }
    }
  }

  /**
   * A replaced paragraph keeps only its tag and identity: its attributes and children go, its
   * text is the translation of its mapped text, and the character data after it is lost.
   */
  lemma ReplacedParagraphLosesTail(p: Node, tail: string, rest: seq<Node>,
                                   translations: map<string, string>, elementMap: map<Anchor, string>)
    requires Matched(p, translations, elementMap)
    requires rest == [] || rest[0].Element?
    ensures var r := ReplaceList([p, Text(tail)] + rest, translations, elementMap);
      && r == [Cleared(p, translations[elementMap[Anchor(p.tag, p.id)]])] + ReplaceList(rest, translations, elementMap)
      && r[0].attrs == []
      && TextContent(r[0]) == translations[elementMap[Anchor(p.tag, p.id)]]
  {
    var cs := [p, Text(tail)] + rest;
    assert cs[1..] == [Text(tail)] + rest;
    assert DropTail(cs[1..]) == DropTail(rest);
    assert TextContentList([Text(translations[elementMap[Anchor(p.tag, p.id)]])]) == translations[elementMap[Anchor(p.tag, p.id)]] + "";
  }

  // ----- get_chapter_files -----

  /** `{id: href for ...}`: a later item with the same id overwrites an earlier one. */
  function ManifestDict(items: seq<ManifestItem>): map<string, string>
  {
    if items == [] then map[]
    else ManifestDict(items[..|items| - 1])[items[|items| - 1].id := items[|items| - 1].href]
  }

  /** The href names an XHTML or HTML document, whatever its case. */
  predicate IsChapterHref(href: string)
  {
    var h := Lower(href);
    EndsWith(h, ".xhtml") || EndsWith(h, ".html") || EndsWith(h, ".htm")
  }

  datatype ChapterFile = ChapterFile(idref: string, href: string)

  /** The chapters in spine order: idrefs present in the manifest whose href is a chapter, repeats kept. */
  function ChapterFiles(manifest: map<string, string>, spine: seq<string>): seq<ChapterFile>
  {
    if spine == [] then []
    else
      var idref := spine[|spine| - 1];
      ChapterFiles(manifest, spine[..|spine| - 1])
      + (if idref in manifest && IsChapterHref(manifest[idref]) then [ChapterFile(idref, manifest[idref])] else [])
  }

  /** `get_chapter_files`. */
  method GetChapterFiles(items: seq<ManifestItem>, spine: seq<string>) returns (chapters: seq<ChapterFile>)
    ensures chapters == ChapterFiles(ManifestDict(items), spine)
  {
    var manifest: map<string, string> := map[];
    for k := 0 to |items|
      invariant manifest == ManifestDict(items[..k])
    {
      assert items[..k + 1][..k] == items[..k];
      manifest := manifest[items[k].id := items[k].href];
    }
    assert items[..|items|] == items;
    chapters := [];
    for k := 0 to |spine|
      invariant chapters == ChapterFiles(manifest, spine[..k])
    {
      assert spine[..k + 1][..k] == spine[..k];
      var idref := spine[k];
      if idref in manifest {
        var href := manifest[idref];
        if IsChapterHref(href) {
          chapters := chapters + [ChapterFile(idref, href)];
        }
      }
    }
    assert spine[..|spine|] == spine;
  }

  /** The manifest maps an id to the href of the last item carrying it. */
  lemma {:induction false} LastDuplicateWins(items: seq<ManifestItem>, j: int)
    requires 0 <= j < |items|
    requires forall k | j < k < |items| :: items[k].id != items[j].id
    ensures items[j].id in ManifestDict(items) && ManifestDict(items)[items[j].id] == items[j].href
  {
    if j < |items| - 1 {
      var init := items[..|items| - 1];
      assert forall k | j < k < |init| :: init[k] == items[k];
      LastDuplicateWins(init, j);
    }
  }

  /** Chapter listing distributes over the spine: a repeated idref is listed again. */
  lemma {:induction false} ChapterFilesAppend(manifest: map<string, string>, s1: seq<string>, s2: seq<string>)
    ensures ChapterFiles(manifest, s1 + s2) == ChapterFiles(manifest, s1) + ChapterFiles(manifest, s2)
    decreases |s2|
  {
    if s2 == [] {
      assert s1 + s2 == s1;
    } else {
      var init := s2[..|s2| - 1];
      assert (s1 + s2)[..|s1 + s2| - 1] == s1 + init;
      ChapterFilesAppend(manifest, s1, init);
    }
  }

  /** A chapter is listed exactly for spine idrefs found in the manifest with an XHTML or HTML href. */
  lemma {:induction false} ChapterFilesMembership(manifest: map<string, string>, spine: seq<string>, c: ChapterFile)
    ensures c in ChapterFiles(manifest, spine) <==>
      c.idref in spine && c.idref in manifest && manifest[c.idref] == c.href && IsChapterHref(c.href)
  {
    if spine != [] {
      var init := spine[..|spine| - 1];
      ChapterFilesMembership(manifest, init, c);
      assert spine == init + [spine[|spine| - 1]];
    }
  }

  // ----- rebuild_epub -----

  /** A file found by walking the unpacked book: its path components below the root, and its content. */
  datatype WalkedFile = WalkedFile(path: seq<string>, content: string)

  /** The name a walked file is written under: its relative path, `/`-separated, with backslashes turned to `/`. */
  function ArcName(path: seq<string>): string
  {
    Replace(Join(path, "/"), "\\", "/")
  }

  predicate NamedMimetype(f: WalkedFile)
  {
    f.path != [] && f.path[|f.path| - 1] == "mimetype"
  }

  /** The content of the top-level `mimetype` file, if there is one. */
  function TopMimetype(files: seq<WalkedFile>): Option<string>
  {
    if files == [] then None
    else if files[0].path == ["mimetype"] then Some(files[0].content)
    else TopMimetype(files[1..])
  }

  /** The entries written by the walk: every file not named `mimetype`, in walk order, compressed. */
  function WalkEntries(files: seq<WalkedFile>): seq<Entry>
  {
    if files == [] then []
    else
      var f := files[|files| - 1];
      WalkEntries(files[..|files| - 1]) + (if NamedMimetype(f) then [] else [Entry(ArcName(f.path), false, f.content)])
  }

  function Rebuilt(files: seq<WalkedFile>): seq<Entry>
  {
    (match TopMimetype(files) case Some(c) => [Entry("mimetype", true, c)] case None => []) + WalkEntries(files)
  }

  /** `rebuild_epub`: the top-level `mimetype` first and stored, then the walk. */
  method RebuildEpub(files: seq<WalkedFile>) returns (entries: seq<Entry>)
    ensures entries == Rebuilt(files)
  {
    entries := [];
    var top := TopMimetype(files);
    if top.Some? {
      entries := [Entry("mimetype", true, top.value)];
    }
    ghost var first := entries;
    for k := 0 to |files|
      invariant entries == first + WalkEntries(files[..k])
    {
      assert files[..k + 1][..k] == files[..k];
      if !NamedMimetype(files[k]) {
        entries := entries + [Entry(ArcName(files[k].path), false, files[k].content)];
      }
    }
    assert files[..|files|] == files;
  }

  /** `/` survives the backslash replacement, and a backslash becomes one. */
  lemma {:induction false} SlashSurvivesReplace(s: string)
    requires '/' in s || '\\' in s
    ensures '/' in Replace(s, "\\", "/")
    decreases |s|
  {
    if |s| >= 1 && s[..1] != "\\" {
      if s[0] != '/' {
        assert s[0] != '\\';
        assert '/' in s[1..] || '\\' in s[1..];
        SlashSurvivesReplace(s[1..]);
      }
    }
  }

  /** Only a one-component path whose component is `mimetype` is written as `mimetype`. */
  lemma ArcNameMimetype(path: seq<string>)
    requires ArcName(path) == "mimetype"
    ensures path == ["mimetype"]
  {
    var joined := Join(path, "/");
    assert '/' !in ArcName(path);
    if '/' in joined || '\\' in joined {
      SlashSurvivesReplace(joined);
    }
    ContainsCharIn(joined, '\\');
    ReplaceAbsent(joined, "\\", "/");
  }

  lemma {:induction false} WalkEntriesNotMimetype(files: seq<WalkedFile>)
    ensures forall i | 0 <= i < |WalkEntries(files)| :: WalkEntries(files)[i].name != "mimetype"
  {
    if files != [] {
      var f := files[|files| - 1];
      WalkEntriesNotMimetype(files[..|files| - 1]);
      if !NamedMimetype(f) && ArcName(f.path) == "mimetype" {
        ArcNameMimetype(f.path);
        assert false;
      }
    }
  }

  /** Every file not named `mimetype` is written, compressed, under its relative name, and nothing else is. */
  lemma {:induction false} WalkEntriesMembership(files: seq<WalkedFile>, e: Entry)
    ensures e in WalkEntries(files) <==>
      !e.stored && exists f | f in files :: !NamedMimetype(f) && e == Entry(ArcName(f.path), false, f.content)
  {
    if files != [] {
      var init := files[..|files| - 1];
      WalkEntriesMembership(init, e);
      assert files == init + [files[|files| - 1]];
    }
  }

  /** The only entry named `mimetype` is the first one. */
  lemma {:induction false} LookupFirstOnly(entries: seq<Entry>, name: string)
    requires entries != [] && entries[0].name == name
    requires forall i | 1 <= i < |entries| :: entries[i].name != name
    ensures Lookup(entries, name) == Some(entries[0])
  {
    if |entries| > 1 {
      var init := entries[..|entries| - 1];
      assert forall i | 1 <= i < |init| :: init[i] == entries[i];
      LookupFirstOnly(init, name);
    }
  }

  /**
   * The rebuilt archive passes the mimetype check exactly when the unpacked book had a
   * top-level `mimetype` file whose stripped content is the EPUB media type.
   */
  lemma RebuiltMimetypeCheck(files: seq<WalkedFile>)
    ensures MimetypeError(Some(Rebuilt(files))).None? <==>
      TopMimetype(files).Some? && Strip(TopMimetype(files).value) == EpubMimetype
  {
    var entries := Rebuilt(files);
    WalkEntriesNotMimetype(files);
    match TopMimetype(files)
    case Some(c) =>
      assert entries[0] == Entry("mimetype", true, c);
      assert forall i | 1 <= i < |entries| :: entries[i] == WalkEntries(files)[i - 1];
      LookupFirstOnly(entries, "mimetype");
    case None =>
      assert entries == WalkEntries(files);
      if entries != [] {
        assert entries[0].name != "mimetype";
      }
  }

  // ----- translate_chapter -----

  /**
   * `translate_chapter` and `translate_chapter_with_progress`: both call
   * `extract_paragraph_texts`, which the class does not define, so the resulting exception is
   * caught and the chapter comes back as it was, before any progress is reported.
   */
  method TranslateChapterWithProgress(chapterContent: string) returns (result: string, progress: seq<(nat, nat)>)
    ensures result == chapterContent && progress == []
  {
    result := chapterContent;
    progress := [];
  }
}
