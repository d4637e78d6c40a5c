/**
 * The second PDF processor: lines grouped into paragraphs by gap and indent rules, tables
 * translated cell by cell with their shape kept, all pages translated with a running item
 * counter, text made safe for the renderer, and a font chosen for the target language. The
 * layout parser, Unicode normalisation, the translator and the renderer are inputs.
 */
module PdfProcessorV2 {
  import opened Strings
  import opened Translator
  import opened Arith

  // ----- Grouping lines into paragraphs -----

  /** A text line as the parser reports it: its text, its top edge and its left edge. */
  datatype Line = Line(text: string, top: real, x0: real)

  function Abs(x: real): real
  {
    if x < 0.0 then -x else x
  }

  /** The three rules that start a new paragraph at `line`, given the previous kept line. */
  predicate StartsParagraph(prev: Line, line: Line, text: string)
  {
    var verticalGap := prev.top - line.top;
    verticalGap > 15.0 || Abs(line.x0 - prev.x0) > 20.0 || (|text| < 60 && verticalGap > 10.0)
  }

  /** The finished paragraphs, the texts of the one being built, and the last non-blank line. */
  datatype GroupState = GroupState(paragraphs: seq<string>, current: seq<string>, prev: Option<Line>)

  /** Finishing a paragraph: its joined, stripped text is kept only when longer than 10. */
  function Finish(paragraphs: seq<string>, current: seq<string>): seq<string>
  {
    var paragraphText := Strip(Join(current, " "));
    if |paragraphText| > 10 then paragraphs + [paragraphText] else paragraphs
  }

  function GroupStep(st: GroupState, line: Line): GroupState
  {
    var text := Strip(line.text);
    if text == [] then st
    else
      var isNew := st.prev.Some? && StartsParagraph(st.prev.value, line, text);
      if isNew && st.current != [] then GroupState(Finish(st.paragraphs, st.current), [text], Some(line))
      else GroupState(st.paragraphs, st.current + [text], Some(line))
  }

  /** The state after all of `lines`. */
  function GroupFold(lines: seq<Line>): GroupState
  {
    if lines == [] then GroupState([], [], None)
    else GroupStep(GroupFold(lines[..|lines| - 1]), lines[|lines| - 1])
  }

  function GroupSpec(lines: seq<Line>): seq<string>
  {
    var st := GroupFold(lines);
    if st.current != [] then Finish(st.paragraphs, st.current) else st.paragraphs
  }

  /** `group_lines_into_paragraphs`. */
  method GroupLinesIntoParagraphs(lines: seq<Line>) returns (paragraphs: seq<string>)
    ensures paragraphs == GroupSpec(lines)
  {
    if lines == [] {
      return [];
    }
    paragraphs := [];
    var currentParagraph: seq<string> := [];
    var prevLine: Option<Line> := None;
    for k := 0 to |lines|
      invariant GroupState(paragraphs, currentParagraph, prevLine) == GroupFold(lines[..k])
    {
      assert lines[..k + 1][..k] == lines[..k];
      var line := lines[k];
      var text := Strip(line.text);
      if text == [] {
        continue;
      }
      var isNewParagraph := false;
      if prevLine.Some? {
        isNewParagraph := StartsParagraph(prevLine.value, line, text);
      }
      if isNewParagraph && currentParagraph != [] {
        var paragraphText := Strip(Join(currentParagraph, " "));
        if |paragraphText| > 10 {
          paragraphs := paragraphs + [paragraphText];
        }
        currentParagraph := [];
      }
      currentParagraph := currentParagraph + [text];
      prevLine := Some(line);
    }
    assert lines[..|lines|] == lines;
    if currentParagraph != [] {
      var paragraphText := Strip(Join(currentParagraph, " "));
      if |paragraphText| > 10 {
        paragraphs := paragraphs + [paragraphText];
      }
    }
  }

  /** The lines whose stripped text is not empty, in order. */
  function NonBlank(lines: seq<Line>): seq<Line>
  {
    if lines == [] then []
    else if Strip(lines[|lines| - 1].text) == [] then NonBlank(lines[..|lines| - 1])
    else NonBlank(lines[..|lines| - 1]) + [lines[|lines| - 1]]
  }

  lemma {:induction false} BlankLinesFold(lines: seq<Line>)
    ensures GroupFold(lines) == GroupFold(NonBlank(lines))
  {
    if lines != [] {
      var init, last := lines[..|lines| - 1], lines[|lines| - 1];
      BlankLinesFold(init);
      if Strip(last.text) != [] {
        assert (NonBlank(init) + [last])[..|NonBlank(init) + [last]| - 1] == NonBlank(init);
      }
    }
  }

  /** Blank lines are skipped entirely: they neither end a paragraph nor count as the previous line. */
  lemma BlankLinesIgnored(lines: seq<Line>)
    ensures GroupSpec(lines) == GroupSpec(NonBlank(lines))
  {
    BlankLinesFold(lines);
  }

  /** A kept paragraph: stripped and longer than 10 characters. */
  predicate IsKeptParagraph(p: string)
  {
    |p| > 10 && Strip(p) == p
  }

  lemma FinishKeeps(paragraphs: seq<string>, current: seq<string>)
    requires forall p :: p in paragraphs ==> IsKeptParagraph(p)
    ensures forall p :: p in Finish(paragraphs, current) ==> IsKeptParagraph(p)
  {
    StripIdempotent(Join(current, " "));
  }

  lemma {:induction false} GroupFoldKeeps(lines: seq<Line>)
    ensures forall p :: p in GroupFold(lines).paragraphs ==> IsKeptParagraph(p)
  {
    if lines != [] {
      var st := GroupFold(lines[..|lines| - 1]);
      GroupFoldKeeps(lines[..|lines| - 1]);
      FinishKeeps(st.paragraphs, st.current);
    }
  }

  /** Every paragraph, the last one included, is stripped and longer than 10 characters. */
  lemma GroupedParagraphsAreLong(lines: seq<Line>)
    ensures forall p :: p in GroupSpec(lines) ==> IsKeptParagraph(p)
  {
    var st := GroupFold(lines);
    GroupFoldKeeps(lines);
    FinishKeeps(st.paragraphs, st.current);
  }

  /** The stripped texts of `lines` longer than 10, each on its own. */
  function LongTexts(lines: seq<Line>): seq<string>
  {
    if lines == [] then [] else Finish(LongTexts(lines[..|lines| - 1]), [Strip(lines[|lines| - 1].text)])
  }

  lemma {:induction false} EveryLineBreaksFold(lines: seq<Line>)
    requires lines != []
    requires forall i :: 0 <= i < |lines| ==> Strip(lines[i].text) != []
    requires forall i :: 1 <= i < |lines| ==> StartsParagraph(lines[i - 1], lines[i], Strip(lines[i].text))
    ensures GroupFold(lines) ==
      GroupState(LongTexts(lines[..|lines| - 1]), [Strip(lines[|lines| - 1].text)], Some(lines[|lines| - 1]))
  {
    if |lines| > 1 {
      var init := lines[..|lines| - 1];
      EveryLineBreaksFold(init);
      assert init[..|init| - 1] == lines[..|lines| - 2];
    }
  }

  /** When every non-blank line meets a rule, each line is a paragraph of its own (if long enough). */
  lemma EveryLineBreaks(lines: seq<Line>)
    requires forall i :: 0 <= i < |lines| ==> Strip(lines[i].text) != []
    requires forall i :: 1 <= i < |lines| ==> StartsParagraph(lines[i - 1], lines[i], Strip(lines[i].text))
    ensures GroupSpec(lines) == LongTexts(lines)
  {
    if lines != [] {
      EveryLineBreaksFold(lines);
    }
  }

  // ----- Extraction -----

  /** A table cell: a string, or `None` for an empty cell. */
  type Table = seq<seq<Option<string>>>

  /** What the parser yields for one page. */
  datatype RawPage = RawPage(width: real, height: real, tables: seq<Table>, lines: seq<Line>)

  /** One page of extracted content. */
  datatype Page = Page(page: nat, textBlocks: seq<string>, tables: seq<Table>, width: real, height: real)

  /** A table is kept when it has a row and some cell with text. */
  predicate HasContent(table: Table)
  {
    table != [] && exists r, c :: 0 <= r < |table| && 0 <= c < |table[r]| && table[r][c].Some? && table[r][c].value != ""
  }

  function KeptTables(tables: seq<Table>): seq<Table>
  {
    if tables == [] then []
    else KeptTables(tables[..|tables| - 1]) + (if HasContent(tables[|tables| - 1]) then [tables[|tables| - 1]] else [])
  }

  /** The table loop of `extract_content_structure`. */
  method FilterTables(tables: seq<Table>) returns (kept: seq<Table>)
    ensures kept == KeptTables(tables)
  {
    kept := [];
    for k := 0 to |tables|
      invariant kept == KeptTables(tables[..k])
    {
      assert tables[..k + 1][..k] == tables[..k];
      if HasContent(tables[k]) {
        kept := kept + [tables[k]];
      }
    }
    assert tables[..|tables|] == tables;
  }

  function PageContent(raw: RawPage, pageNum: nat): Page
  {
    Page(pageNum, GroupSpec(raw.lines), KeptTables(raw.tables), raw.width, raw.height)
  }

  /** What extraction yields: nothing when the parser raised, else one entry per page from 1. */
  function ExtractContentSpec(raw: Option<seq<RawPage>>): seq<Page>
  {
    match raw
    case None => []
    case Some(pages) => seq(|pages|, k requires 0 <= k < |pages| => PageContent(pages[k], k + 1))
  }

  /** `extract_content_structure`. */
  method ExtractContentStructure(raw: Option<seq<RawPage>>) returns (pagesContent: seq<Page>)
    ensures pagesContent == ExtractContentSpec(raw)
  {
    pagesContent := [];
    if raw.None? {
      return;
    }
    var pages := raw.value;
    for k := 0 to |pages|
      invariant |pagesContent| == k
      invariant forall j :: 0 <= j < k ==> pagesContent[j] == PageContent(pages[j], j + 1)
    {
      var tables := FilterTables(pages[k].tables);
      var textBlocks: seq<string> := [];
      if pages[k].lines != [] {
        textBlocks := GroupLinesIntoParagraphs(pages[k].lines);
      }
      pagesContent := pagesContent + [Page(k + 1, textBlocks, tables, pages[k].width, pages[k].height)];
    }
  }

  // ----- Translating tables and pages -----

  /** One cell of `translate_table`. */
  function TranslatedCell(cell: Option<string>, tr: string -> CallResult): string
  {
    match cell
    case None => ""
    case Some(c) =>
      if Strip(c) == [] || |Strip(c)| <= 3 then c
      else
        match tr(Strip(c))
        case Value(t) => t
        case Raises => c
  }

  /**
   * Cells without text become "", blank or short cells (three characters or fewer once
   * stripped) are kept, and any other cell is sent stripped and replaced by its translation,
   * or kept when the translation fails.
   */
  lemma TranslatedCellCases(cell: Option<string>, tr: string -> CallResult)
    ensures cell.None? ==> TranslatedCell(cell, tr) == ""
    ensures cell.Some? && |Strip(cell.value)| <= 3 ==> TranslatedCell(cell, tr) == cell.value
    ensures cell.Some? && |Strip(cell.value)| > 3 ==>
      TranslatedCell(cell, tr) == (if tr(Strip(cell.value)).Value? then tr(Strip(cell.value)).text else cell.value)
  {
  }

  method TranslateRow(row: seq<Option<string>>, tr: string -> CallResult) returns (translatedRow: seq<string>)
    ensures |translatedRow| == |row|
    ensures forall c :: 0 <= c < |row| ==> translatedRow[c] == TranslatedCell(row[c], tr)
  {
    translatedRow := [];
    for c := 0 to |row|
      invariant |translatedRow| == c
      invariant forall j :: 0 <= j < c ==> translatedRow[j] == TranslatedCell(row[j], tr)
    {
      var cell := row[c];
      if cell.Some? && Strip(cell.value) != [] {
        var stripped := Strip(cell.value);
        if |stripped| > 3 {
          match tr(stripped) {
            case Value(t) => translatedRow := translatedRow + [t];
            case Raises => translatedRow := translatedRow + [cell.value];
          }
        } else {
          translatedRow := translatedRow + [cell.value];
        }
      } else {
        translatedRow := translatedRow + [if cell.Some? then cell.value else ""];
      }
    }
  }

  /** `translate_table`: as many rows, each with as many cells. */
  method TranslateTable(table: Table, tr: string -> CallResult) returns (translated: seq<seq<string>>)
    ensures |translated| == |table|
    ensures forall r :: 0 <= r < |table| ==> |translated[r]| == |table[r]|
    ensures forall r, c :: 0 <= r < |table| && 0 <= c < |table[r]| ==> translated[r][c] == TranslatedCell(table[r][c], tr)
  {
    translated := [];
    for r := 0 to |table|
      invariant |translated| == r
      invariant forall j :: 0 <= j < r ==> |translated[j]| == |table[j]|
      invariant forall j, c :: 0 <= j < r && 0 <= c < |table[j]| ==> translated[j][c] == TranslatedCell(table[j][c], tr)
    {
      var translatedRow := TranslateRow(table[r], tr);
      translated := translated + [translatedRow];
    }
  }

  /** A page after translation. */
  datatype TranslatedPage = TranslatedPage(page: nat, textBlocks: seq<string>, tables: seq<seq<seq<string>>>,
                                           width: real, height: real)

  function TranslatedBlock(block: string, tr: string -> CallResult): string
  {
    match tr(block)
    case Value(t) => t
    case Raises => block
  }

  function PageItems(p: Page): nat
  {
    |p.textBlocks| + |p.tables|
  }

  /** `total_items`: text blocks and tables over all pages. */
  function TotalItems(pages: seq<Page>): nat
  {
    if pages == [] then 0 else TotalItems(pages[..|pages| - 1]) + PageItems(pages[|pages| - 1])
  }

  /** The counter values `from + 1 .. to`. */
  function Counts(from: nat, to: nat): seq<nat>
    requires from <= to
  {
    seq(to - from, i requires 0 <= i < to - from => from + i + 1)
  }

  /** A page's translation keeps its number and size, one block per block, and each table's shape. */
  predicate TranslatesPage(p: Page, tp: TranslatedPage, tr: string -> CallResult)
  {
    && tp.page == p.page && tp.width == p.width && tp.height == p.height
    && |tp.textBlocks| == |p.textBlocks|
    && (forall i :: 0 <= i < |p.textBlocks| ==> tp.textBlocks[i] == TranslatedBlock(p.textBlocks[i], tr))
    && |tp.tables| == |p.tables|
    && (forall t :: 0 <= t < |p.tables| ==> |tp.tables[t]| == |p.tables[t]|)
    && (forall t, r :: 0 <= t < |p.tables| && 0 <= r < |p.tables[t]| ==> |tp.tables[t][r]| == |p.tables[t][r]|)
    && (forall t, r, c :: 0 <= t < |p.tables| && 0 <= r < |p.tables[t]| && 0 <= c < |p.tables[t][r]| ==>
          tp.tables[t][r][c] == TranslatedCell(p.tables[t][r][c], tr))
  }

  /** One page of `translate_content`: blocks first, then tables, one counter step per item. */
  method TranslatePage(p: Page, tr: string -> CallResult, start: nat) returns (tp: TranslatedPage, counts: seq<nat>)
    ensures TranslatesPage(p, tp, tr)
    ensures counts == Counts(start, start + PageItems(p))
  {
    var currentItem := start;
    counts := [];
    var blocks: seq<string> := [];
    for i := 0 to |p.textBlocks|
      invariant |blocks| == i && currentItem == start + i
      invariant counts == Counts(start, currentItem)
      invariant forall j :: 0 <= j < i ==> blocks[j] == TranslatedBlock(p.textBlocks[j], tr)
    {
      currentItem := currentItem + 1;
      counts := counts + [currentItem];
      match tr(p.textBlocks[i]) {
        case Value(t) => blocks := blocks + [t];
        case Raises => blocks := blocks + [p.textBlocks[i]];
      }
    }
    var tables: seq<seq<seq<string>>> := [];
    for i := 0 to |p.tables|
      invariant |tables| == i && currentItem == start + |p.textBlocks| + i
      invariant counts == Counts(start, currentItem)
      invariant forall t :: 0 <= t < i ==> |tables[t]| == |p.tables[t]|
      invariant forall t, r :: 0 <= t < i && 0 <= r < |p.tables[t]| ==> |tables[t][r]| == |p.tables[t][r]|
      invariant forall t, r, c :: 0 <= t < i && 0 <= r < |p.tables[t]| && 0 <= c < |p.tables[t][r]| ==>
        tables[t][r][c] == TranslatedCell(p.tables[t][r][c], tr)
    {
      currentItem := currentItem + 1;
      counts := counts + [currentItem];
      var translatedTable := TranslateTable(p.tables[i], tr);
      tables := tables + [translatedTable];
    }
    tp := TranslatedPage(p.page, blocks, tables, p.width, p.height);
  }

  /**
   * `translate_content`: one translated page per page, and the item counter steps through
   * 1 .. `total_items`, ending there.
   */
  method TranslateContent(pages: seq<Page>, tr: string -> CallResult)
    returns (translatedPages: seq<TranslatedPage>, counts: seq<nat>)
    ensures |translatedPages| == |pages|
    ensures forall k :: 0 <= k < |pages| ==> TranslatesPage(pages[k], translatedPages[k], tr)
    ensures counts == Counts(0, TotalItems(pages))
  {
    translatedPages := [];
    counts := [];
    var currentItem := 0;
    for k := 0 to |pages|
      invariant |translatedPages| == k
      invariant forall j :: 0 <= j < k ==> TranslatesPage(pages[j], translatedPages[j], tr)
      invariant currentItem == TotalItems(pages[..k])
      invariant counts == Counts(0, currentItem)
    {
      assert pages[..k + 1][..k] == pages[..k];
      var tp, pageCounts := TranslatePage(pages[k], tr, currentItem);
      translatedPages := translatedPages + [tp];
      counts := counts + pageCounts;
      currentItem := currentItem + PageItems(pages[k]);
    }
    assert pages[..|pages|] == pages;
  }

  // ----- Text for the renderer -----

  /** The HTML escaping step: `&`, then `<`, then `>`. */
  function Escape(s: string): string
  {
    Replace(Replace(Replace(s, "&", "&amp;"), "<", "&lt;"), ">", "&gt;")
  }

  lemma EscapeRemovesBrackets(s: string)
    ensures '<' !in Escape(s) && '>' !in Escape(s)
  {
    var a := Replace(s, "&", "&amp;");
    var b := Replace(a, "<", "&lt;");
    ReplaceCharRemoves(a, '<', "&lt;");
    ReplaceKeepsAbsent(b, ">", "&gt;", '<');
    ReplaceCharRemoves(b, '>', "&gt;");
  }

  /** The typographic quotes, dashes and ellipsis replaced in strict mode, in that order. */
  function ReplaceTypography(s: string): string
  {
    var s1 := Replace(s, "\U{2018}", "'");
    var s2 := Replace(s1, "\U{2019}", "'");
    var s3 := Replace(s2, "\U{201C}", "\"");
    var s4 := Replace(s3, "\U{201D}", "\"");
    var s5 := Replace(s4, "\U{2013}", "-");
    var s6 := Replace(s5, "\U{2014}", "--");
    Replace(s6, "\U{2026}", "...")
  }

  /** The characters strict mode keeps: printable ASCII, Latin-1 and Latin Extended-A, CJK, kana, Hangul, and tab, newline and carriage return. */
  predicate StrictAllowed(c: char)
  {
    (' ' <= c <= '~') || ('\U{00A0}' <= c <= '\U{017F}') || ('\U{4E00}' <= c <= '\U{9FFF}')
    || ('\U{3040}' <= c <= '\U{309F}') || ('\U{30A0}' <= c <= '\U{30FF}') || ('\U{AC00}' <= c <= '\U{D7AF}')
    || c == '\n' || c == '\r' || c == '\t'
  }

  /** The strict filter: every other character becomes a space. */
  function FilterChars(s: string): string
  {
    if s == [] then [] else [if StrictAllowed(s[0]) then s[0] else ' '] + FilterChars(s[1..])
  }

  lemma {:induction false} FilterCharsAllowed(s: string)
    ensures forall c :: c in FilterChars(s) ==> StrictAllowed(c)
  {
    if s != [] {
      FilterCharsAllowed(s[1..]);
    }
  }

  /** The final step: strip, then collapse every run of whitespace to one space. */
  function NormalizeSpaces(s: string): string
  {
    CollapseSpaces(Strip(s))
  }

  /** Neither leading nor trailing whitespace, and no two whitespace characters in a row. */
  predicate WellSpaced(s: string)
  {
    (s == [] || (!IsSpace(s[0]) && !IsSpace(s[|s| - 1]))) && NoDoubleSpace(s)
  }

  lemma NormalizeSpacesFacts(s: string)
    ensures WellSpaced(NormalizeSpaces(s))
    ensures forall c :: c in NormalizeSpaces(s) ==> c in s || c == ' '
  {
    var t := Strip(s);
    StripShape(s);
    StripKeeps(s);
    CollapseFacts(t);
    if t != [] {
      CollapseEnds(t);
    }
  }

  /**
   * `prepare_text_for_pdf` as written: it escapes first and normalises (NFKC, given as `nfkc`)
   * afterwards in strict mode.
   */
  function PrepareTextForPdf(text: string, strict: bool, nfkc: string -> string): string
  {
    if text == [] then ""
    else
      var escaped := Escape(text);
      var cleaned := if strict then FilterChars(ReplaceTypography(nfkc(escaped))) else escaped;
      NormalizeSpaces(cleaned)
  }

  /**
   * Whatever the mode, the result is well spaced; in normal mode it holds no `<` or `>`; in
   * strict mode every character is one the filter allows.
   */
  lemma PreparedTextFacts(text: string, strict: bool, nfkc: string -> string)
    ensures WellSpaced(PrepareTextForPdf(text, strict, nfkc))
    ensures !strict ==> '<' !in PrepareTextForPdf(text, strict, nfkc) && '>' !in PrepareTextForPdf(text, strict, nfkc)
    ensures strict ==> forall c :: c in PrepareTextForPdf(text, strict, nfkc) ==> StrictAllowed(c)
    ensures text == [] ==> PrepareTextForPdf(text, strict, nfkc) == ""
  {
    if text != [] {
      var escaped := Escape(text);
      var cleaned := if strict then FilterChars(ReplaceTypography(nfkc(escaped))) else escaped;
      NormalizeSpacesFacts(cleaned);
      EscapeRemovesBrackets(text);
      if strict {
        FilterCharsAllowed(ReplaceTypography(nfkc(escaped)));
      }
    }
  }

  /**
   * In strict mode a fullwidth less-than sign passes the escaping untouched, NFKC turns it into
   * `<`, and the filter keeps it: the renderer receives a raw `<`.
   */
  lemma StrictModeLeaksBracket(nfkc: string -> string)
    requires nfkc("\U{FF1C}") == "<"
    ensures PrepareTextForPdf("\U{FF1C}", true, nfkc) == "<"
  {
    assert Escape("\U{FF1C}") == "\U{FF1C}";
    assert ReplaceTypography("<") == "<";
    assert FilterChars("<") == "<";
    assert Strip("<") == "<";
    assert CollapseSpaces("<") == "<";
  }

  /** `prepare_text_for_pdf` with the escaping moved after normalisation and filtering. */
  function PrepareTextForPdfFixed(text: string, strict: bool, nfkc: string -> string): string
  {
    if text == [] then ""
    else
      var cleaned := if strict then FilterChars(ReplaceTypography(nfkc(text))) else text;
      NormalizeSpaces(Escape(cleaned))
  }

  /** With escaping last, no mode and no normalisation lets a `<` or `>` through, and spacing is normalised. */
  lemma PreparedTextFixedFacts(text: string, strict: bool, nfkc: string -> string)
    ensures WellSpaced(PrepareTextForPdfFixed(text, strict, nfkc))
    ensures '<' !in PrepareTextForPdfFixed(text, strict, nfkc) && '>' !in PrepareTextForPdfFixed(text, strict, nfkc)
  {
    if text != [] {
      var cleaned := if strict then FilterChars(ReplaceTypography(nfkc(text))) else text;
      NormalizeSpacesFacts(Escape(cleaned));
      EscapeRemovesBrackets(cleaned);
    }
  }

  // ----- Font choice and the pipeline -----

  /** The font `select_cjk_font` picks, by case-insensitive language prefix. */
  function FontFor(hasUnicodeFont: bool, targetLang: string): string
  {
    var lang := Lower(targetLang);
    if hasUnicodeFont then "CJKFont"
    else if StartsWith(lang, "ja") then "HeiseiKakuGo-W5"
    else if StartsWith(lang, "zh-tw") || StartsWith(lang, "zh-hk") || StartsWith(lang, "zh-hant") then "MSung-Light"
    else if StartsWith(lang, "zh") || StartsWith(lang, "zh-cn") || StartsWith(lang, "zh-hans") then "STSong-Light"
    else if StartsWith(lang, "ko") then "HYSMyeongJo-Medium"
    else "Helvetica"
  }

  /** The choice ignores letter case. */
  lemma FontForIgnoresCase(hasUnicodeFont: bool, targetLang: string)
    ensures FontFor(hasUnicodeFont, Lower(targetLang)) == FontFor(hasUnicodeFont, targetLang)
  {
    LowerIdempotent(targetLang);
  }

  lemma PrefixOfPrefix(s: string, p: string, q: string)
    requires StartsWith(s, p + q)
    ensures StartsWith(s, p)
  {
    assert s[..|p|] == (p + q)[..|p|];
  }

  /**
   * Every Traditional Chinese tag starts with `zh`, and so do `zh-cn` and `zh-hans`: in the
   * Simplified branch the test `startswith('zh')` alone decides.
   */
  lemma TraditionalIsChinese(lang: string)
    ensures StartsWith(lang, "zh-tw") || StartsWith(lang, "zh-hk") || StartsWith(lang, "zh-hant") ==> StartsWith(lang, "zh")
    ensures StartsWith(lang, "zh") || StartsWith(lang, "zh-cn") || StartsWith(lang, "zh-hans") <==> StartsWith(lang, "zh")
  {
    if StartsWith(lang, "zh-tw") { PrefixOfPrefix(lang, "zh", "-tw"); }
    if StartsWith(lang, "zh-hk") { PrefixOfPrefix(lang, "zh", "-hk"); }
    if StartsWith(lang, "zh-hant") { PrefixOfPrefix(lang, "zh", "-hant"); }
    if StartsWith(lang, "zh-cn") { PrefixOfPrefix(lang, "zh", "-cn"); }
    if StartsWith(lang, "zh-hans") { PrefixOfPrefix(lang, "zh", "-hans"); }
  }

  /**
   * Without a Unicode font, a Chinese tag that is not Japanese gets the Traditional font exactly
   * when it starts with `zh-tw`, `zh-hk` or `zh-hant`, and the Simplified font otherwise.
   */
  lemma ChineseFonts(hasUnicodeFont: bool, targetLang: string)
    requires !hasUnicodeFont
    ensures var lang := Lower(targetLang);
      var traditional := StartsWith(lang, "zh-tw") || StartsWith(lang, "zh-hk") || StartsWith(lang, "zh-hant");
      StartsWith(lang, "zh") && !StartsWith(lang, "ja") ==>
        && (FontFor(hasUnicodeFont, targetLang) == "MSung-Light" <==> traditional)
        && (FontFor(hasUnicodeFont, targetLang) == "STSong-Light" <==> !traditional)
  {
    TraditionalIsChinese(Lower(targetLang));
  }

  /** The fallback font is chosen exactly when there is no Unicode font and no Japanese, Chinese or Korean prefix. */
  lemma FallbackFont(hasUnicodeFont: bool, targetLang: string)
    ensures var lang := Lower(targetLang);
      FontFor(hasUnicodeFont, targetLang) == "Helvetica" <==>
        !hasUnicodeFont && !StartsWith(lang, "ja") && !StartsWith(lang, "zh") && !StartsWith(lang, "ko")
  {
    var lang := Lower(targetLang);
    TraditionalIsChinese(lang);
    var font := FontFor(hasUnicodeFont, targetLang);
    if hasUnicodeFont {
      assert font == "CJKFont";
    } else if StartsWith(lang, "ja") {
      assert font == "HeiseiKakuGo-W5";
    } else if StartsWith(lang, "zh") {
      assert font == "MSung-Light" || font == "STSong-Light";
    } else if StartsWith(lang, "ko") {
      assert font == "HYSMyeongJo-Medium";
    } else {
      assert font == "Helvetica";
    }
  }

  /** `translation_progress`: 10 to 90 percent over the items (truncating division). */
  function ContentPercent(current: nat, total: nat): int
  {
    if total == 0 then 10 else 10 + current * 80 / total
  }

  function ContentProgress(total: nat): seq<int>
  {
    seq(total, i requires 0 <= i < total => ContentPercent(i + 1, total))
  }

  /** The reported percentages never go down and stay within 1 to 100. */
  lemma ContentProgressMonotone(n: nat)
    ensures var p := [1, 10] + ContentProgress(n) + [95, 100];
      && (forall i :: 0 <= i < |p| ==> 1 <= p[i] <= 100)
      && (forall i, j :: 0 <= i < j < |p| ==> p[i] <= p[j])
  {
    var p := [1, 10] + ContentProgress(n) + [95, 100];
    forall i | 2 <= i < 2 + n
      ensures 10 <= p[i] <= 90
    {
      ScaledShare(i - 1, n, n, 80);
    }
    forall i, j | 2 <= i < j < 2 + n
      ensures p[i] <= p[j]
    {
      ScaledShare(i - 1, j - 1, n, 80);
    }
  }

  /** The processor: the font it will render with, and whether a Unicode font was registered. */
  class PdfProcessorV2 {
    var fontName: string
    var hasUnicodeFont: bool

    /**
     * `__init__`: font set-up decides `hasUnicodeFont` (its file checks are an input), and the
     * font name is then reset to Helvetica whatever set-up chose.
     */
    constructor(hasUnicodeFont: bool)
      ensures this.hasUnicodeFont == hasUnicodeFont && fontName == "Helvetica"
    {
      this.hasUnicodeFont := hasUnicodeFont;
      fontName := "Helvetica";
    }

    /** `select_cjk_font`. */
    method SelectCjkFont(targetLang: string)
      modifies this
      ensures fontName == FontFor(hasUnicodeFont, targetLang)
      ensures hasUnicodeFont == old(hasUnicodeFont)
    {
      var lang := Lower(targetLang);
      if hasUnicodeFont {
        fontName := "CJKFont";
        return;
      }
      if StartsWith(lang, "ja") {
        fontName := "HeiseiKakuGo-W5";
      } else if StartsWith(lang, "zh-tw") || StartsWith(lang, "zh-hk") || StartsWith(lang, "zh-hant") {
        fontName := "MSung-Light";
      } else if StartsWith(lang, "zh") || StartsWith(lang, "zh-cn") || StartsWith(lang, "zh-hans") {
        fontName := "STSong-Light";
      } else if StartsWith(lang, "ko") {
        fontName := "HYSMyeongJo-Medium";
      } else {
        fontName := "Helvetica";
      }
    }

    /**
     * `process_pdf`: fails when extraction yields no page; otherwise translates everything,
     * picks the font, and succeeds when the document is built. `progress` holds the
     * percentages reported to the caller.
     */
    method ProcessPdf(raw: Option<seq<RawPage>>, targetLang: string, tr: string -> CallResult, renderOk: bool)
      returns (success: bool, progress: seq<int>, translated: seq<TranslatedPage>)
      modifies this
      ensures hasUnicodeFont == old(hasUnicodeFont)
      ensures success <==> ExtractContentSpec(raw) != [] && renderOk
      ensures ExtractContentSpec(raw) == [] ==> fontName == old(fontName) && progress == [1]
      ensures ExtractContentSpec(raw) != [] ==>
        && fontName == FontFor(hasUnicodeFont, targetLang)
        && |translated| == |ExtractContentSpec(raw)|
        && (forall k :: 0 <= k < |translated| ==> TranslatesPage(ExtractContentSpec(raw)[k], translated[k], tr))
      ensures success ==> progress == [1, 10] + ContentProgress(TotalItems(ExtractContentSpec(raw))) + [95, 100]
    {
      progress := [1];
      translated := [];
      var pagesContent := ExtractContentStructure(raw);
      if pagesContent == [] {
        return false, progress, translated;
      }
      progress := progress + [10];
      var counts;
      translated, counts := TranslateContent(pagesContent, tr);
      var total := TotalItems(pagesContent);
      var percents: seq<int> := [];
      for k := 0 to |counts|
        invariant |percents| == k
        invariant forall j :: 0 <= j < k ==> percents[j] == ContentPercent(counts[j], total)
      {
        percents := percents + [ContentPercent(counts[k], total)];
      }
      assert percents == ContentProgress(total);
      progress := progress + percents;
      SelectCjkFont(targetLang);
      progress := progress + [95];
      if !renderOk {
        return false, progress, translated;
      }
      progress := progress + [100];
      success := true;
    }
  }
}
