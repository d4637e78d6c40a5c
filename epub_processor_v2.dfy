/**
 * The second EPUB processor: the paragraph-level texts of a chapter are found after the
 * non-prose elements are removed, translated one by one into a text-keyed table, and written
 * back into every paragraph element whose text is a key. Parsing and serialising a chapter,
 * reading and writing the book, and validating it are inputs.
 */
module EpubProcessorV2 {
  import opened Strings
  import opened HtmlTree
  import opened Translator

  /** Elements removed, with everything inside them, before texts are collected. */
  const SkipTags: set<string> := {"script", "style", "code", "pre", "meta", "link", "title"}

  /** Elements translated as one block. */
  const ParagraphTags: set<string> :=
    {"p", "h1", "h2", "h3", "h4", "h5", "h6", "blockquote", "li", "td", "th", "dt", "dd"}

  predicate IsSkip(n: Node)
  {
    n.Element? && n.tag in SkipTags
  }

  predicate IsParagraph(n: Node)
  {
    n.Element? && n.tag in ParagraphTags
  }

  // ----- Extraction -----

  /** A node once every skip-tag element inside it has been decomposed. */
  function Prune(n: Node): Node
  {
    match n
    case Text(_) => n
    case Element(tag, attrs, id, children) => Element(tag, attrs, id, PruneList(children))
  }

  function PruneList(cs: seq<Node>): seq<Node>
  {
    if cs == [] then [] else (if IsSkip(cs[0]) then [] else [Prune(cs[0])]) + PruneList(cs[1..])
  }

  /** `find_all(paragraph_tags)`: every paragraph-tag element in document order, nested ones included. */
  function FindParagraphs(cs: seq<Node>): seq<Node>
  {
    if cs == [] then []
    else
      var here := if IsParagraph(cs[0]) then [cs[0]] else [];
      var below := if cs[0].Element? then FindParagraphs(cs[0].children) else [];
      here + below + FindParagraphs(cs[1..])
  }

  /** The texts of `tags` longer than 10 characters, in order. */
  function KeptTexts(tags: seq<Node>): seq<string>
  {
    if tags == [] then []
    else
      var text := StrippedText(tags[|tags| - 1]);
      KeptTexts(tags[..|tags| - 1]) + (if text != [] && |text| > 10 then [text] else [])
  }

  /** What `extract_translatable_texts` returns for a chapter whose top-level contents are `doc`. */
  function ExtractSpec(doc: seq<Node>): seq<string>
  {
    KeptTexts(FindParagraphs(PruneList(doc)))
  }

  /** `extract_translatable_texts`. */
  method ExtractTranslatableTexts(doc: seq<Node>) returns (texts: seq<string>)
    ensures texts == ExtractSpec(doc)
  {
    var soup := PruneList(doc);
    var tags := FindParagraphs(soup);
    texts := [];
    for k := 0 to |tags|
      invariant texts == KeptTexts(tags[..k])
    {
      assert tags[..k + 1][..k] == tags[..k];
      var text := StrippedText(tags[k]);
      if text != [] && |text| > 10 {
        texts := texts + [text];
      }
    }
    assert tags[..|tags|] == tags;
  }

  /** No skip-tag element anywhere in `n`. */
  predicate SkipFree(n: Node)
  {
    match n
    case Text(_) => true
    case Element(tag, _, _, children) => tag !in SkipTags && SkipFreeList(children)
  }

  predicate SkipFreeList(cs: seq<Node>)
  {
    cs == [] || (SkipFree(cs[0]) && SkipFreeList(cs[1..]))
  }

  lemma {:induction false} PruneListSkipFree(cs: seq<Node>)
    ensures SkipFreeList(PruneList(cs))
  {
    if cs != [] {
      PruneListSkipFree(cs[1..]);
      var head := if IsSkip(cs[0]) then [] else [Prune(cs[0])];
      if cs[0].Element? {
        PruneListSkipFree(cs[0].children);
      }
      assert SkipFreeList(head) by {
        if head != [] {
          assert SkipFree(Prune(cs[0]));
          assert head[1..] == [];
        }
      }
      SkipFreeListAppend(head, PruneList(cs[1..]));
    }
  }

  lemma {:induction false} SkipFreeListAppend(xs: seq<Node>, ys: seq<Node>)
    requires SkipFreeList(xs) && SkipFreeList(ys)
    ensures SkipFreeList(xs + ys)
  {
    if xs != [] {
      assert (xs + ys)[1..] == xs[1..] + ys;
      SkipFreeListAppend(xs[1..], ys);
    } else {
      assert xs + ys == ys;
    }
  }

  lemma {:induction false} FindParagraphsInSkipFree(cs: seq<Node>)
    requires SkipFreeList(cs)
    ensures forall e :: e in FindParagraphs(cs) ==> IsParagraph(e) && SkipFree(e)
  {
    if cs != [] {
      if cs[0].Element? {
        FindParagraphsInSkipFree(cs[0].children);
      }
      FindParagraphsInSkipFree(cs[1..]);
    }
  }

  lemma {:induction false} KeptTextsFrom(tags: seq<Node>)
    ensures forall t :: t in KeptTexts(tags) ==> |t| > 10 && exists e :: e in tags && StrippedText(e) == t
  {
    if tags != [] {
      var init := tags[..|tags| - 1];
      KeptTextsFrom(init);
      forall t | t in KeptTexts(tags)
        ensures |t| > 10 && exists e :: e in tags && StrippedText(e) == t
      {
        if t in KeptTexts(init) {
          var e :| e in init && StrippedText(e) == t;
          assert e in tags;
        } else {
          assert StrippedText(tags[|tags| - 1]) == t;
        }
      }
    }
  }

  /**
   * Every extracted text is longer than 10 characters and is the text of a paragraph-tag
   * element that `find_all` returns on the pruned chapter, holding no script, style, code,
   * pre, meta, link or title element.
   */
  lemma ExtractedTextsAreVisibleProse(doc: seq<Node>)
    ensures forall t :: t in ExtractSpec(doc) ==>
      |t| > 10 && exists e :: e in FindParagraphs(PruneList(doc)) && IsParagraph(e) && SkipFree(e) && StrippedText(e) == t
  {
    PruneListSkipFree(doc);
    FindParagraphsInSkipFree(PruneList(doc));
    KeptTextsFrom(FindParagraphs(PruneList(doc)));
  }

  lemma {:induction false} KeptTextsHas(tags: seq<Node>, e: Node)
    requires e in tags && |StrippedText(e)| > 10
    ensures StrippedText(e) in KeptTexts(tags)
  {
    if e != tags[|tags| - 1] {
      KeptTextsHas(tags[..|tags| - 1], e);
    }
  }

  /** Every long enough paragraph of the pruned tree, nested ones included, is extracted. */
  lemma EveryLongParagraphExtracted(doc: seq<Node>, e: Node)
    requires e in FindParagraphs(PruneList(doc)) && |StrippedText(e)| > 10
    ensures StrippedText(e) in ExtractSpec(doc)
  {
    KeptTextsHas(FindParagraphs(PruneList(doc)), e);
  }

  // ----- Replacement -----

  /**
   * `replace_translatable_texts` as written: each paragraph-tag element, outermost first, whose
   * text taken from the unpruned tree is a key has its contents replaced by the translation;
   * its attributes stay. A replaced element's former descendants are no longer in the tree.
   */
  function ReplaceNode(n: Node, translations: map<string, string>): (r: Node)
    ensures n.Text? ==> r == n
    ensures n.Element? ==> r.Element? && r.tag == n.tag && r.attrs == n.attrs && r.id == n.id
    ensures IsParagraph(n) && StrippedText(n) in translations ==> r.children == [Text(translations[StrippedText(n)])]
  {
    match n
    case Text(_) => n
    case Element(tag, attrs, id, children) =>
      if tag in ParagraphTags && StrippedText(n) in translations then Element(tag, attrs, id, [Text(translations[StrippedText(n)])])
      else Element(tag, attrs, id, ReplaceList(children, translations))
  }

  function ReplaceList(cs: seq<Node>, translations: map<string, string>): (r: seq<Node>)
    ensures |r| == |cs|
  {
    if cs == [] then [] else [ReplaceNode(cs[0], translations)] + ReplaceList(cs[1..], translations)
  }

  /** Every node keeps its kind and place; every element keeps its tag, attributes and identity. */
  lemma {:induction false} ReplaceKeepsShape(cs: seq<Node>, translations: map<string, string>)
    ensures |ReplaceList(cs, translations)| == |cs|
    ensures forall i :: 0 <= i < |cs| ==> ReplaceList(cs, translations)[i].Element? == cs[i].Element?
    ensures forall i :: 0 <= i < |cs| && cs[i].Text? ==> ReplaceList(cs, translations)[i] == cs[i]
    ensures forall i :: 0 <= i < |cs| && cs[i].Element? ==>
      var r := ReplaceList(cs, translations)[i];
      r.tag == cs[i].tag && r.attrs == cs[i].attrs && r.id == cs[i].id
  {
    if cs != [] {
      ReplaceKeepsShape(cs[1..], translations);
    }
  }

  /** A tree none of whose paragraph-tag elements has its text among the keys comes back unchanged. */
  lemma {:induction false} ReplaceNothingMatched(cs: seq<Node>, translations: map<string, string>)
    requires forall e :: e in FindParagraphs(cs) ==> StrippedText(e) !in translations
    ensures ReplaceList(cs, translations) == cs
  {
    if cs != [] {
      if cs[0].Element? {
        ReplaceNothingMatched(cs[0].children, translations);
      }
      ReplaceNothingMatched(cs[1..], translations);
    }
  }

  /** A paragraph-tag element whose text is a key holds the translation alone afterwards. */
  lemma ReplaceMatched(n: Node, translations: map<string, string>)
    requires IsParagraph(n) && StrippedText(n) in translations
    ensures ReplaceNode(n, translations) == n.(children := [Text(translations[StrippedText(n)])])
  {
  }

  lemma {:induction false} ReplacedIdsOfUnmatched(cs: seq<Node>, translations: map<string, string>)
    requires forall e :: e in FindParagraphs(cs) ==> StrippedText(e) !in translations
    ensures ReplacedIds(cs, translations) == {}
  {
    if cs != [] {
      if cs[0].Element? {
        ReplacedIdsOfUnmatched(cs[0].children, translations);
      }
      ReplacedIdsOfUnmatched(cs[1..], translations);
    }
  }

  /** The elements whose contents the replacement overwrites: each replaced one and all inside it. */
  function ReplacedIds(cs: seq<Node>, translations: map<string, string>): set<nat>
  {
    if cs == [] then {}
    else
      var c := cs[0];
      var here :=
        if c.Text? then {}
        else if c.tag in ParagraphTags && StrippedText(c) in translations then {c.id} + AllIds(c.children)
        else ReplacedIds(c.children, translations);
      here + ReplacedIds(cs[1..], translations)
  }

  /** A paragraph with inline code: the code is dropped from its extracted text but not from its key. */
  function InlineCodeParagraph(): Node
  {
    Element("p", [], 1, [Text("Run "), Element("code", [], 2, [Text("ls")]), Text(" to see all")])
  }

  function InlineCodeChapter(): seq<Node>
  {
    [InlineCodeParagraph()]
  }

  /** The same paragraph once the code element is decomposed. */
  function PrunedInlineCodeParagraph(): Node
  {
    Element("p", [], 1, [Text("Run "), Text(" to see all")])
  }

  lemma InlineCodePieces()
    ensures Strip("Run ") == "Run"
    ensures Strip(" to see all") == "to see all"
    ensures Strip("ls") == "ls"
  {
    assert TrimRight("Run ") == "Run";
    assert TrimLeft(" to see all") == TrimLeft("to see all");
  }

  lemma InlineCodePruned()
    ensures PruneList(InlineCodeChapter()) == [PrunedInlineCodeParagraph()]
  {
    var cs := InlineCodeParagraph().children;
    assert cs[1..][1..] == [Text(" to see all")];
    assert cs[1..][1..][1..] == [];
    assert IsSkip(cs[1]);
    assert PruneList(cs) == PrunedInlineCodeParagraph().children;
  }

  lemma InlineCodePrunedText()
    ensures StrippedText(PrunedInlineCodeParagraph()) == "Run" + "to see all"
    ensures FindParagraphs(PrunedInlineCodeParagraph().children) == []
  {
    var cs := PrunedInlineCodeParagraph().children;
    InlineCodePieces();
    assert cs[1..][1..] == [];
    assert StrippedTextList(cs[1..]) == "to see all" + "";
    assert StrippedTextList(cs) == "Run" + ("to see all" + "");
  }

  lemma InlineCodeExtracted()
    ensures ExtractSpec(InlineCodeChapter()) == ["Run" + "to see all"]
  {
    var pruned := PrunedInlineCodeParagraph();
    InlineCodePruned();
    InlineCodePrunedText();
    assert FindParagraphs([pruned]) == [pruned];
    assert [pruned][..0] == [];
  }

  lemma InlineCodeKey()
    ensures StrippedText(InlineCodeParagraph()) == "Run" + "ls" + "to see all"
  {
    var cs := InlineCodeParagraph().children;
    InlineCodePieces();
    assert cs[1..][1..] == [Text(" to see all")];
    assert cs[1..][1..][1..] == [];
    assert cs[1].children[1..] == [];
    assert StrippedText(cs[1]) == "ls" by {
      assert StrippedTextList(cs[1].children) == "ls" + "";
    }
    assert StrippedTextList(cs[1..][1..]) == "to see all" by {
      assert StrippedTextList(cs[1..][1..]) == "to see all" + "";
    }
    assert StrippedTextList(cs[1..]) == "ls" + "to see all";
    assert StrippedTextList(cs) == "Run" + ("ls" + "to see all");
  }

  lemma InlineCodeNotNested()
    ensures FindParagraphs(InlineCodeParagraph().children) == []
  {
    var cs := InlineCodeParagraph().children;
    assert !IsParagraph(cs[1]) by {
      assert cs[1].tag == "code";
    }
    assert cs[1..][1..] == [Text(" to see all")];
    assert cs[1..][1..][1..] == [];
    assert FindParagraphs(cs[1].children) == [] by {
      assert cs[1].children[1..] == [];
    }
  }

  /**
   * With a translation for exactly the extracted texts, the paragraph that was extracted is not
   * replaced and the chapter comes back unchanged.
   */
  lemma InlineCodeParagraphMissed(translations: map<string, string>)
    requires forall t :: t in translations <==> t in ExtractSpec(InlineCodeChapter())
    ensures ExtractSpec(InlineCodeChapter()) == ["Run" + "to see all"]
    ensures 1 !in ReplacedIds(InlineCodeChapter(), translations)
    ensures ReplaceList(InlineCodeChapter(), translations) == InlineCodeChapter()
  {
    InlineCodeExtracted();
    assert StrippedText(InlineCodeParagraph()) !in translations by {
      InlineCodeKey();
    }
    InlineCodeUnmatched(translations);
  }

  /** Without a translation under the paragraph's own key, nothing in the chapter is replaced. */
  lemma InlineCodeUnmatched(translations: map<string, string>)
    requires StrippedText(InlineCodeParagraph()) !in translations
    ensures ReplacedIds(InlineCodeChapter(), translations) == {}
    ensures ReplaceList(InlineCodeChapter(), translations) == InlineCodeChapter()
  {
    var doc := InlineCodeChapter();
    var p := InlineCodeParagraph();
    InlineCodeNotNested();
    assert FindParagraphs(doc) == [p];
    ReplaceNothingMatched(doc, translations);
    ReplacedIdsOfUnmatched(p.children, translations);
    assert ReplacedIds(doc, translations) == ReplacedIds(p.children, translations) + ReplacedIds([], translations);
  }

  /** The key the replacement should use: the element's text with skip-tag elements left out, as extraction computed it. */
  function VisibleKey(n: Node): string
    requires n.Element?
  {
    StrippedTextList(PruneList(n.children))
  }

  /** Replacement keyed by `VisibleKey`; everything else as in `ReplaceNode`. */
  function ReplaceNodeFixed(n: Node, translations: map<string, string>): Node
  {
    match n
    case Text(_) => n
    case Element(tag, attrs, id, children) =>
      if tag in ParagraphTags && VisibleKey(n) in translations then Element(tag, attrs, id, [Text(translations[VisibleKey(n)])])
      else Element(tag, attrs, id, ReplaceListFixed(children, translations))
  }

  function ReplaceListFixed(cs: seq<Node>, translations: map<string, string>): seq<Node>
  {
    if cs == [] then [] else [ReplaceNodeFixed(cs[0], translations)] + ReplaceListFixed(cs[1..], translations)
  }

  /** The elements whose contents `ReplaceListFixed` overwrites. */
  function ReplacedIdsFixed(cs: seq<Node>, translations: map<string, string>): set<nat>
  {
    if cs == [] then {}
    else
      var c := cs[0];
      var here :=
        if c.Text? then {}
        else if c.tag in ParagraphTags && VisibleKey(c) in translations then {c.id} + AllIds(c.children)
        else ReplacedIdsFixed(c.children, translations);
      here + ReplacedIdsFixed(cs[1..], translations)
  }

  lemma {:induction false} FindParagraphsAppend(xs: seq<Node>, ys: seq<Node>)
    ensures FindParagraphs(xs + ys) == FindParagraphs(xs) + FindParagraphs(ys)
  {
    if xs != [] {
      assert (xs + ys)[1..] == xs[1..] + ys;
      FindParagraphsAppend(xs[1..], ys);
    } else {
      assert xs + ys == ys;
    }
  }

  /** Splits the paragraphs of the pruned contents into those of the first node and of the rest. */
  lemma PrunedParagraphsSplit(cs: seq<Node>)
    requires cs != []
    ensures FindParagraphs(PruneList(cs)) ==
      (if IsSkip(cs[0]) || cs[0].Text? then []
       else (if IsParagraph(cs[0]) then [Prune(cs[0])] else []) + FindParagraphs(PruneList(cs[0].children)))
      + FindParagraphs(PruneList(cs[1..]))
  {
    var head := if IsSkip(cs[0]) then [] else [Prune(cs[0])];
    FindParagraphsAppend(head, PruneList(cs[1..]));
    if head != [] {
      assert head[1..] == [];
    }
  }

  lemma {:induction false} PrunedParagraphIds(cs: seq<Node>)
    ensures forall e :: e in FindParagraphs(PruneList(cs)) ==> e.Element? && e.id in AllIds(cs)
  {
    if cs != [] {
      PrunedParagraphsSplit(cs);
      if cs[0].Element? {
        PrunedParagraphIds(cs[0].children);
      }
      PrunedParagraphIds(cs[1..]);
    }
  }

  lemma {:induction false} ExtractedCoveredFixed(cs: seq<Node>, translations: map<string, string>)
    requires forall e :: e in FindParagraphs(PruneList(cs)) && |StrippedText(e)| > 10 ==> StrippedText(e) in translations
    ensures forall e :: e in FindParagraphs(PruneList(cs)) && |StrippedText(e)| > 10 ==>
      e.Element? && e.id in ReplacedIdsFixed(cs, translations)
  {
    if cs != [] {
      var c := cs[0];
      PrunedParagraphsSplit(cs);
      PrunedParagraphIds(cs);
      ExtractedCoveredFixed(cs[1..], translations);
      if c.Element? && !IsSkip(c) {
        if c.tag in ParagraphTags && VisibleKey(c) in translations {
          PrunedParagraphIds(c.children);
        } else {
          ExtractedCoveredFixed(c.children, translations);
        }
      }
    }
  }

  /**
   * With keyed replacement on the visible text, once every extracted text has a translation,
   * every extracted paragraph is overwritten, on its own or inside an enclosing one.
   */
  lemma ExtractedParagraphsReplacedFixed(doc: seq<Node>, translations: map<string, string>)
    requires forall t :: t in ExtractSpec(doc) ==> t in translations
    ensures forall e :: e in FindParagraphs(PruneList(doc)) && |StrippedText(e)| > 10 ==>
      e.Element? && e.id in ReplacedIdsFixed(doc, translations)
  {
    forall e | e in FindParagraphs(PruneList(doc)) && |StrippedText(e)| > 10
      ensures StrippedText(e) in translations
    {
      EveryLongParagraphExtracted(doc, e);
    }
    ExtractedCoveredFixed(doc, translations);
  }

  // ----- Translating a chapter -----

  /** The translation kept for `text`: the translator's answer, or the text itself when it raises. */
  function TranslationOf(text: string, tr: string -> CallResult): string
  {
    match tr(text)
    case Value(t) => t
    case Raises => text
  }

  /** The table built from `texts`: one entry per distinct text. */
  function TranslationTable(texts: seq<string>, tr: string -> CallResult): map<string, string>
  {
    map t | t in texts :: TranslationOf(t, tr)
  }

  /** Block progress after `k` of `n` texts: `(i + 1, n)` for each `i < k`. */
  function BlockSteps(k: nat, n: nat): seq<(nat, nat)>
  {
    seq(k, i requires 0 <= i < k => (i + 1, n))
  }

  /** What a chapter becomes: left as it was, or the rewritten contents. */
  datatype HtmlOutcome = Unchanged | Rewritten(doc: seq<Node>)

  /** The translation loop: each text in order, its block step reported first. */
  method TranslateTexts(texts: seq<string>, tr: string -> CallResult)
    returns (translations: map<string, string>, progress: seq<(nat, nat)>)
    ensures translations == TranslationTable(texts, tr)
    ensures progress == BlockSteps(|texts|, |texts|)
  {
    translations := map[];
    progress := [];
    for i := 0 to |texts|
      invariant translations == TranslationTable(texts[..i], tr)
      invariant progress == BlockSteps(i, |texts|)
    {
      assert texts[..i + 1] == texts[..i] + [texts[i]];
      progress := progress + [(i + 1, |texts|)];
      match tr(texts[i]) {
        case Value(t) => translations := translations[texts[i] := t];
        case Raises => translations := translations[texts[i] := texts[i]];
      }
    }
    assert texts[..|texts|] == texts;
  }

  /**
   * What a chapter becomes: unchanged when it cannot be parsed or yields no text, else
   * rewritten by `replace_translatable_texts` as written, keyed by the unpruned text.
   */
  function ChapterOutcome(doc: Option<seq<Node>>, tr: string -> CallResult): HtmlOutcome
  {
    if doc.None? || ExtractSpec(doc.value) == [] then Unchanged
    else Rewritten(ReplaceList(doc.value, TranslationTable(ExtractSpec(doc.value), tr)))
  }

  /** The same, with the replacement keyed by the visible text extraction used. */
  function ChapterOutcomeFixed(doc: Option<seq<Node>>, tr: string -> CallResult): HtmlOutcome
  {
    if doc.None? || ExtractSpec(doc.value) == [] then Unchanged
    else Rewritten(ReplaceListFixed(doc.value, TranslationTable(ExtractSpec(doc.value), tr)))
  }

  /** The block steps a chapter reports. */
  function ChapterBlockSteps(doc: Option<seq<Node>>): seq<(nat, nat)>
  {
    if doc.None? then [] else BlockSteps(|ExtractSpec(doc.value)|, |ExtractSpec(doc.value)|)
  }

  /**
   * `translate_html_content`: `doc` is the parsed chapter (`None` when parsing raises). With
   * no texts, or when parsing fails, the chapter is unchanged and no block progress is reported;
   * otherwise every text is translated in order, a failure keeping the text, and the table is
   * written back by `ReplaceList`, keyed by each paragraph's unpruned text.
   */
  method TranslateHtmlContent(doc: Option<seq<Node>>, tr: string -> CallResult)
    returns (result: HtmlOutcome, progress: seq<(nat, nat)>)
    ensures result == ChapterOutcome(doc, tr) && progress == ChapterBlockSteps(doc)
  {
    if doc.None? {
      return Unchanged, [];
    }
    var texts := ExtractTranslatableTexts(doc.value);
    if texts == [] {
      return Unchanged, [];
    }
    var translations;
    translations, progress := TranslateTexts(texts, tr);
    result := Rewritten(ReplaceList(doc.value, translations));
  }

  /** `translate_html_content` with the table written back under the visible-text key. */
  method TranslateHtmlContentFixed(doc: Option<seq<Node>>, tr: string -> CallResult)
    returns (result: HtmlOutcome, progress: seq<(nat, nat)>)
    ensures result == ChapterOutcomeFixed(doc, tr) && progress == ChapterBlockSteps(doc)
  {
    if doc.None? {
      return Unchanged, [];
    }
    var texts := ExtractTranslatableTexts(doc.value);
    if texts == [] {
      return Unchanged, [];
    }
    var translations;
    translations, progress := TranslateTexts(texts, tr);
    result := Rewritten(ReplaceListFixed(doc.value, translations));
  }

  /** Every extracted text has an entry, nothing else does, and a failed translation maps a text to itself. */
  lemma TranslationTableFacts(texts: seq<string>, tr: string -> CallResult)
    ensures forall t :: t in TranslationTable(texts, tr) <==> t in texts
    ensures forall t :: t in texts && tr(t).Raises? ==> TranslationTable(texts, tr)[t] == t
    ensures forall t :: t in texts && tr(t).Value? ==> TranslationTable(texts, tr)[t] == tr(t).text
  {
  }

  /**
   * As written, the chapter holding a paragraph with inline code comes back with its contents
   * unchanged, whatever the translator answers.
   */
  lemma InlineCodeChapterUnchanged(tr: string -> CallResult)
    ensures ChapterOutcome(Some(InlineCodeChapter()), tr) == Rewritten(InlineCodeChapter())
  {
    InlineCodeExtracted();
    var table := TranslationTable(ExtractSpec(InlineCodeChapter()), tr);
    InlineCodeParagraphMissed(table);
  }

  /**
   * With the visible-text key, a chapter with text is rewritten so that every extracted
   * paragraph is overwritten, on its own or inside an enclosing one.
   */
  lemma ChapterFixedCoversExtracted(doc: seq<Node>, tr: string -> CallResult)
    requires ExtractSpec(doc) != []
    ensures var table := TranslationTable(ExtractSpec(doc), tr);
      && ChapterOutcomeFixed(Some(doc), tr) == Rewritten(ReplaceListFixed(doc, table))
      && forall e :: e in FindParagraphs(PruneList(doc)) && |StrippedText(e)| > 10 ==>
           e.Element? && e.id in ReplacedIdsFixed(doc, table)
  {
    ExtractedParagraphsReplacedFixed(doc, TranslationTable(ExtractSpec(doc), tr));
  }

  /** With the visible-text key, the inline-code paragraph is overwritten by its translation. */
  lemma InlineCodeChapterFixed(tr: string -> CallResult)
    ensures ChapterOutcomeFixed(Some(InlineCodeChapter()), tr) ==
      Rewritten([Element("p", [], 1, [Text(TranslationOf("Run" + "to see all", tr))])])
  {
    var p := InlineCodeParagraph();
    InlineCodeExtracted();
    InlineCodePruned();
    InlineCodePrunedText();
    assert PruneList(p.children) == PrunedInlineCodeParagraph().children;
    assert VisibleKey(p) == "Run" + "to see all";
    var table := TranslationTable(ExtractSpec(InlineCodeChapter()), tr);
    assert table["Run" + "to see all"] == TranslationOf("Run" + "to see all", tr);
    assert ReplaceListFixed(InlineCodeChapter(), table) == [ReplaceNodeFixed(p, table)] + ReplaceListFixed([], table);
  }

  // ----- The book -----

  /**
   * A document item of the book: its bytes either fail `.decode('utf-8')`, or decode to a
   * chapter that parses (`Some`) or not (`None`).
   */
  datatype DocItem = Undecodable | Decoded(doc: Option<seq<Node>>)

  datatype EpubFailure = ReadFailed | NoDocumentItems | DecodeFailed | WriteFailed | ValidationFailed(errors: seq<string>)

  datatype EpubResult = EpubSuccess | EpubFailed(reason: EpubFailure)

  /** The index of the first item that does not decode, or the number of items when every one does. */
  function FirstUndecodable(items: seq<DocItem>): (k: nat)
    ensures k <= |items|
    ensures forall j :: 0 <= j < k ==> items[j].Decoded?
    ensures k < |items| ==> items[k].Undecodable?
  {
    if items == [] || items[0].Undecodable? then 0
    else
      var k := FirstUndecodable(items[1..]);
      assert forall j :: 1 <= j < k + 1 ==> items[j] == items[1..][j - 1];
      1 + k
  }

  /** The progress pairs of one decoded chapter: the chapter step, then its block steps. */
  function ChapterSteps(i: nat, n: nat, item: DocItem): seq<(nat, nat)>
  {
    [(i + 1, n)] + (if item.Decoded? then ChapterBlockSteps(item.doc) else [])
  }

  function EpubSteps(items: seq<DocItem>, k: nat): seq<(nat, nat)>
    requires k <= |items|
  {
    if k == 0 then [] else EpubSteps(items, k - 1) + ChapterSteps(k - 1, |items|, items[k - 1])
  }

  /** One pass of the chapter loop for an item that decodes: its chapter step, then its translation. */
  method TranslateItem(items: seq<DocItem>, i: nat, tr: string -> CallResult)
    returns (translated: HtmlOutcome, steps: seq<(nat, nat)>)
    requires i < |items| && items[i].Decoded?
    ensures translated == ChapterOutcome(items[i].doc, tr)
    ensures EpubSteps(items, i) + steps == EpubSteps(items, i + 1)
  {
    var blocks;
    translated, blocks := TranslateHtmlContent(items[i].doc, tr);
    steps := [(i + 1, |items|)] + blocks;
  }

  /**
   * The chapter loop of `process_epub`: each chapter's step, then its decoding and its
   * translation. Decoding is outside `translate_html_content`'s `try`, so the first item that
   * does not decode ends the loop, after its chapter step was reported.
   */
  method TranslateChapters(items: seq<DocItem>, tr: string -> CallResult)
    returns (decodeFailed: bool, chapters: seq<HtmlOutcome>, progress: seq<(nat, nat)>)
    ensures var k := FirstUndecodable(items);
      && (decodeFailed <==> k < |items|)
      && |chapters| == k
      && (forall i :: 0 <= i < k ==> chapters[i] == ChapterOutcome(items[i].doc, tr))
      && progress == EpubSteps(items, k) + (if k < |items| then [(k + 1, |items|)] else [])
  {
    chapters := [];
    progress := [];
    var i := 0;
    while i < |items|
      invariant i <= FirstUndecodable(items)
      invariant |chapters| == i
      invariant forall j :: 0 <= j < i ==> chapters[j] == ChapterOutcome(items[j].doc, tr)
      invariant progress == EpubSteps(items, i)
    {
      if items[i].Undecodable? {
        assert FirstUndecodable(items) == i;
        progress := progress + [(i + 1, |items|)];
        return true, chapters, progress;
      }
      var translated, steps := TranslateItem(items, i, tr);
      progress := progress + steps;
      chapters := chapters + [translated];
      i := i + 1;
    }
    decodeFailed := false;
  }

  /**
   * `process_epub`: `book` holds the document items (`None` when the book cannot be read);
   * writing and validating the result are inputs. It fails when the book cannot be read, when
   * there is no document item, when a chapter does not decode as UTF-8 (after the earlier
   * chapters were translated and reported), when writing fails, or when validation reports
   * the book invalid, and succeeds otherwise.
   */
  method ProcessEpub(book: Option<seq<DocItem>>, tr: string -> CallResult, writeOk: bool,
                     valid: bool, validationErrors: seq<string>)
    returns (result: EpubResult, chapters: seq<HtmlOutcome>, progress: seq<(nat, nat)>)
    ensures book.None? ==> result == EpubFailed(ReadFailed) && progress == []
    ensures book == Some([]) ==> result == EpubFailed(NoDocumentItems) && progress == []
    ensures book.Some? && book.value != [] ==>
      var items := book.value;
      var k := FirstUndecodable(items);
      && |chapters| == k
      && (forall i :: 0 <= i < k ==> chapters[i] == ChapterOutcome(items[i].doc, tr))
      && progress == EpubSteps(items, k) + (if k < |items| then [(k + 1, |items|)] else [])
      && result == (if k < |items| then EpubFailed(DecodeFailed)
                    else if !writeOk then EpubFailed(WriteFailed)
                    else if !valid then EpubFailed(ValidationFailed(validationErrors))
                    else EpubSuccess)
  {
    chapters := [];
    progress := [];
    if book.None? {
      return EpubFailed(ReadFailed), chapters, progress;
    }
    if book.value == [] {
      return EpubFailed(NoDocumentItems), chapters, progress;
    }
    var decodeFailed;
    decodeFailed, chapters, progress := TranslateChapters(book.value, tr);
    if decodeFailed {
      return EpubFailed(DecodeFailed), chapters, progress;
    }
    if !writeOk {
      return EpubFailed(WriteFailed), chapters, progress;
    }
    if !valid {
      return EpubFailed(ValidationFailed(validationErrors)), chapters, progress;
    }
    result := EpubSuccess;
  }
}
