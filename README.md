# EPUB/PDF translator: a Dafny model of the translation backend

The system is a web backend that translates EPUB and PDF books. A user uploads a book. The
server records a job and runs a processor in the background. The processor extracts the
book's prose, sends it to a language-model translator, and writes a translated copy. The
client then polls the job's status, reads its log and downloads the result.

This project models the logic of that backend in Dafny and proves properties about it. There is one module
per source file:

- `Translator` (`backend/services/translator.py`):
  - the retry loop of `translate_text`, with its "looks untranslated" heuristic and back-off waits;
  - the order-restoring `translate_batch`;
  - the buffer-based `chunk_text`.
- `PdfProcessor` (`backend/services/pdf_processor.py`): the layout extractor used by the job runner.
  It covers the reading-order sort, paragraph merging, horizontal overlap, paragraph translation,
  and `process_pdf` with its progress wiring.
- `PdfProcessorV2` (`backend/services/pdf_processor_v2.py`): the structure-preserving processor.
  It covers line grouping, table and content translation, text preparation, font choice and
  progress mapping. `PdfProcessorV2.PdfProcessorV2` is a class with the processor's font fields.
- `EpubProcessorV2` (`backend/services/epub_processor_v2.py`): the processor the job runner uses.
  It covers extraction after pruning skip tags, replacement keyed by text, chapter translation
  and the outcome rules of `process_epub`.
- `EpubProcessor` (`backend/services/epub_processor.py`): the first EPUB processor. It covers
  the anchor-keyed extraction and replacement, spine-ordered chapter listing, archive rebuilding,
  and the `translate_chapter*` methods.
- `App` (`backend/app.py`): the job ledger as a class `App.JobLedger`. Its `jobs` and `logs`
  maps are updated by `CreateJob`, `UpdateJob`, `AddJobLog`, `ProgressCallback` and the two job
  runners. The status, download and log endpoints are decision functions over the ledger.
- `Validators` (`backend/services/validators.py`): the staged EPUB validator as a class whose
  `errors` and `warnings` lists its methods append to. The archive is an abstract list of entries.
- `Security` (`backend/services/security.py`):
  - the extension, size and content checks, and the report of `validate_file`;
  - the rate limiter, as a class over its map of request times.
- `Utils` (`backend/services/utils.py`): `normalize_zip_path` over a model of POSIX `pathlib`,
  and `is_allowed_file_type`.
- Shared modules:
  - `Strings` models the Python string operations the source relies on (`strip`, `lower`,
    `replace`, `split`, `join`, `endswith`, `in`).
  - `HtmlTree` is the element tree both EPUB processors work on.
  - `Arith` holds a few integer facts.

Loops in the source are methods with loop invariants. Each method is proved against a
function that specifies it. The source's promises are lemmas about those functions.

Outside effects are inputs to the model:
- The translation service is an input in one of two forms. In `Translator` it is the
  sequence of outcomes that successive requests get. Elsewhere it is a function from a text to
  its translation or an exception.
- Parsed documents are inputs: element trees, text boxes, text lines, tables and archive entries.
- So are the answers of the MIME detector, the file hash, the epubcheck tool and the renderer.
- Clock readings and job ids are parameters.

## Model

| member | source | states |
|---|---|---|
| Translator.AttemptsStep | backend/services/translator.py:49-91 | one attempt either retries (one more request, its wait, then the rest), returns its stripped reply, or lets the exception escape |
| Translator.RetryStep | backend/services/translator.py:71-88 | a retried attempt adds one request and its wait to what has been done so far |
| Translator.FinalStep | backend/services/translator.py:81-91 | an attempt that is not retried ends the call with its stripped reply or the exception, after one more request |
| Translator.TranslateText | backend/services/translator.py:37-91 | the loop computes the retry run the specification function defines; blank text comes back unchanged without any request |
| Translator.AttemptsBounded | backend/services/translator.py:49-91 | from attempt a of n: between 1 and n - a requests, `None` exactly when no attempt is left, one wait per retried request, the k-th wait being 2^(a+k) after an exception or 1.5 * 2^(a+k) after a rejected reply |
| Translator.AttemptsStripped | backend/services/translator.py:66-82 | every returned translation is stripped |
| Translator.AttemptsAcceptedEarly | backend/services/translator.py:71-82 | a reply accepted before the last attempt did not look untranslated (unchanged once spaces are removed, or over 95% ASCII) |
| Translator.AttemptsAcceptedLast | backend/services/translator.py:71-82 | a reply accepted at the last attempt is that attempt's stripped reply, whatever it looks like |
| Translator.AttemptsRaised | backend/services/translator.py:84-91 | an exception escapes only from the last attempt, and only when that attempt failed |
| Translator.TranslateTextFacts | backend/services/translator.py:37-91 | for text with content: at most `max_retries` requests, `None` exactly when `max_retries` is 0, a stripped result, and an exception only when the last request failed |
| Translator.TranslateBatch | backend/services/translator.py:93-122 | whatever order the per-item jobs complete in, item i of the result is item i's translation, or item i itself when translating it raised; progress reports (k, n) for k = 1 .. n |
| Translator.SortByIndex | backend/services/translator.py:121-122 | sorting the recorded pairs by index puts each record's value at its own index |
| Translator.ChunkText | backend/services/translator.py:124-146 | the splitter computes the fold over the lines with paragraph markers; a text no longer than `max_chars` is one chunk |
| Translator.ChunkFoldBounded | backend/services/translator.py:132-143 | when every line is shorter than `max_chars`, the buffer and every chunk stay within `max_chars` |
| Translator.ChunksWithinLimit | backend/services/translator.py:124-146 | when every line is shorter than `max_chars`, no chunk is longer than `max_chars` |
| PdfProcessor.InsertPermutes | backend/services/pdf_processor.py:68 | inserting a box into a sorted list adds exactly that box |
| PdfProcessor.InsertLowerBound | backend/services/pdf_processor.py:68 | a box sorting no later than the inserted box and every listed box sorts no later than any box of the result |
| PdfProcessor.InsertSorted | backend/services/pdf_processor.py:68 | insertion keeps reading order and adds exactly the inserted box |
| PdfProcessor.SortBoxesCorrect | backend/services/pdf_processor.py:68 | sorting by `(-top, left)` yields the page's boxes in reading order, none lost or added |
| PdfProcessor.PageBoxesStripped | backend/services/pdf_processor.py:56-66 | a page keeps at most one box per container, each non-blank, stripped and tagged with its page number |
| PdfProcessor.PageLayoutFacts | backend/services/pdf_processor.py:52-69 | one page's boxes are its non-blank stripped containers, tagged with the page number and in reading order |
| PdfProcessor.ExtractTextWithLayout | backend/services/pdf_processor.py:46-83 | one list of sorted boxes per page, pages numbered from 1; when the layout parser raises, the whole plain text as one box on page 1, or nothing when that fails |
| PdfProcessor.OverlapSymmetric | backend/services/pdf_processor.py:144-162 | the horizontal overlap does not depend on argument order |
| PdfProcessor.OverlapIsFraction | backend/services/pdf_processor.py:144-162 | for well-formed boxes the overlap ratio lies between 0 and 1 |
| PdfProcessor.OverlapDisjoint | backend/services/pdf_processor.py:151-162 | boxes side by side that share no width have overlap 0 |
| PdfProcessor.OverlapSelf | backend/services/pdf_processor.py:144-162 | a box of positive width overlaps itself completely |
| PdfProcessor.LineHeightsPositive | backend/services/pdf_processor.py:94-100 | there are fewer line heights than boxes, and every one is positive |
| PdfProcessor.SumPositive | backend/services/pdf_processor.py:102 | a non-empty sum of positive heights is positive |
| PdfProcessor.ThresholdPositive | backend/services/pdf_processor.py:102-103 | the merge threshold is 1.5 times a positive average, or 30 when there are no heights, so it is always positive |
| PdfProcessor.CollectLineHeights | backend/services/pdf_processor.py:94-100 | the loop collects exactly the non-zero distances between consecutive top edges |
| PdfProcessor.MergeParagraphs | backend/services/pdf_processor.py:85-142 | the pass yields the fold of merge-or-flush steps over the boxes with the computed threshold, then flushes the last paragraph |
| PdfProcessor.FlushKeepsParagraphs | backend/services/pdf_processor.py:133-140 | a flush adds at most one paragraph, and only a stripped, non-empty one |
| PdfProcessor.MergeFoldShape | backend/services/pdf_processor.py:105-136 | after k boxes at most k - 1 paragraphs are finished, each stripped and non-empty |
| PdfProcessor.MergeParagraphsShape | backend/services/pdf_processor.py:85-142 | no boxes give no paragraphs; otherwise there are at most as many paragraphs as boxes, each stripped and non-empty |
| PdfProcessor.NoMergeFold | backend/services/pdf_processor.py:122-136 | when no consecutive pair meets the merge condition, each finished paragraph is one box's stripped text |
| PdfProcessor.NoMergeKeepsEveryBox | backend/services/pdf_processor.py:85-142 | when no consecutive pair qualifies, the paragraphs are exactly the non-blank boxes, stripped, in order |
| PdfProcessor.MergingStep | backend/services/pdf_processor.py:127-131 | a qualifying box extends the current paragraph and finishes none |
| PdfProcessor.AllMergeFold | backend/services/pdf_processor.py:122-131 | when every consecutive pair qualifies, no paragraph is finished and the current one is all boxes joined |
| PdfProcessor.AllMergeIsOneParagraph | backend/services/pdf_processor.py:85-142 | when every consecutive pair qualifies, the result is the single joined paragraph, or nothing when it is blank |
| PdfProcessor.JoinTextKeepsBoth | backend/services/pdf_processor.py:127-131 | a merged paragraph starts with what it had, ends with the new text and gains at most one space |
| PdfProcessor.TranslateParagraphs | backend/services/pdf_processor.py:164-192 | a callback that cannot take four arguments raises a `TypeError` exactly when a paragraph exists; otherwise one output per paragraph, short, all-digit or failing ones kept as they are, the others translated, and progress (i+1, n) per paragraph |
| PdfProcessor.ConcatPages | backend/services/pdf_processor.py:260-262 | all pages' boxes, page after page |
| PdfProcessor.ProcessPdf | backend/services/pdf_processor.py:243-297 | as written: extraction failure and no paragraphs fail after progress 0 and 0, 10; with any paragraph the two-argument progress callback makes translation raise, so the job never succeeds |
| PdfProcessor.TranslationStep | backend/services/pdf_processor.py:276-284 | with a four-argument progress callback: one translation per paragraph, which keeps a paragraph whose stripped text is shorter than 3 characters or all digits, or whose translation raises, and otherwise is the translator's text; one percentage `20 + int(current / total * 70)` per paragraph |
| PdfProcessor.ProcessPdfFixed | backend/services/pdf_processor.py:243-297 | with the callback arity corrected: success exactly when extraction, paragraphs and rendering all succeed, with progress 0, 10, 20, the per-paragraph percentages, 90 and 100; when extraction yields paragraphs, each translated paragraph follows the same keep-or-translate rule |
| PdfProcessor.FixedProgressMonotone | backend/services/pdf_processor.py:276-290 | the reported percentages stay within 0 to 100 and never go down |
| PdfProcessorV2.GroupLinesIntoParagraphs | backend/services/pdf_processor_v2.py:172-227 | the loop yields the fold of the grouping step over the lines, then finishes the last paragraph |
| PdfProcessorV2.BlankLinesFold | backend/services/pdf_processor_v2.py:181-184 | dropping the blank lines first leaves the fold unchanged |
| PdfProcessorV2.BlankLinesIgnored | backend/services/pdf_processor_v2.py:181-219 | blank lines neither end a paragraph nor count as the previous line: the paragraphs are those of the non-blank lines alone |
| PdfProcessorV2.FinishKeeps | backend/services/pdf_processor_v2.py:211-216 | finishing a paragraph adds only a stripped text longer than 10 characters |
| PdfProcessorV2.GroupFoldKeeps | backend/services/pdf_processor_v2.py:180-219 | every paragraph finished inside the loop is stripped and longer than 10 characters |
| PdfProcessorV2.GroupedParagraphsAreLong | backend/services/pdf_processor_v2.py:172-227 | every paragraph, the last one included, is stripped and longer than 10 characters |
| PdfProcessorV2.EveryLineBreaksFold | backend/services/pdf_processor_v2.py:193-216 | when each line after the first meets a new-paragraph rule, every earlier line is finished on its own and the last is the current paragraph |
| PdfProcessorV2.EveryLineBreaks | backend/services/pdf_processor_v2.py:172-227 | when every non-blank line meets a rule (gap over 15, indent change over 20, or a short line after a gap over 10), each line is a paragraph of its own, kept when longer than 10 |
| PdfProcessorV2.FilterTables | backend/services/pdf_processor_v2.py:151-155 | exactly the tables with a row and some cell with text are kept, in order |
| PdfProcessorV2.ExtractContentStructure | backend/services/pdf_processor_v2.py:131-170 | nothing when the parser raises; otherwise one entry per page numbered from 1, with its kept tables, its grouped paragraphs and its size |
| PdfProcessorV2.TranslatedCellCases | backend/services/pdf_processor_v2.py:321-333 | an empty cell becomes "", a cell of at most 3 stripped characters is kept, a longer one becomes the translation of its stripped text, or itself when translation raises |
| PdfProcessorV2.TranslateRow | backend/services/pdf_processor_v2.py:320-334 | one output cell per cell, each translated by the cell rule |
| PdfProcessorV2.TranslateTable | backend/services/pdf_processor_v2.py:316-337 | as many rows as the table, each with as many cells, each translated by the cell rule |
| PdfProcessorV2.TranslatePage | backend/services/pdf_processor_v2.py:273-311 | a page keeps its number and size, gets one block per block (the translation, or the block when translation raises) and its tables translated, with one counter step per item, blocks before tables |
| PdfProcessorV2.TranslateContent | backend/services/pdf_processor_v2.py:265-314 | one translated page per page, and the item counter steps through 1 .. total_items |
| PdfProcessorV2.EscapeRemovesBrackets | backend/services/pdf_processor_v2.py:346-348 | after escaping no `<` or `>` is left |
| PdfProcessorV2.FilterCharsAllowed | backend/services/pdf_processor_v2.py:374-389 | after filtering every character is in the allowed ranges |
| PdfProcessorV2.NormalizeSpacesFacts | backend/services/pdf_processor_v2.py:391-393 | the result has no surrounding whitespace and no two whitespace characters in a row, and adds no character other than a space |
| PdfProcessorV2.PreparedTextFacts | backend/services/pdf_processor_v2.py:340-395 | as written: empty text gives ""; the result is well spaced; in normal mode it holds no `<` or `>`; in strict mode every character is an allowed one |
| PdfProcessorV2.StrictModeLeaksBracket | backend/services/pdf_processor_v2.py:346-356 | as written, a fullwidth less-than sign in strict mode comes out as a raw `<` |
| PdfProcessorV2.PreparedTextFixedFacts | backend/services/pdf_processor_v2.py:340-395 | with escaping done last, no mode lets a `<` or `>` through, and the result stays well spaced |
| PdfProcessorV2.FontForIgnoresCase | backend/services/pdf_processor_v2.py:113 | the font choice ignores the letter case of the language |
| PdfProcessorV2.TraditionalIsChinese | backend/services/pdf_processor_v2.py:121-123 | every Traditional Chinese prefix is also a `zh` prefix, and `zh` or `zh-cn` or `zh-hans` holds exactly when `zh` does, so the Simplified branch's extra prefixes add nothing |
| PdfProcessorV2.ChineseFonts | backend/services/pdf_processor_v2.py:108-128 | without a Unicode font, a non-Japanese `zh` language gets MSung-Light exactly when it starts with `zh-tw`, `zh-hk` or `zh-hant`, and STSong-Light exactly otherwise |
| PdfProcessorV2.FallbackFont | backend/services/pdf_processor_v2.py:108-128 | Helvetica is chosen exactly when there is no Unicode font and the language starts with none of `ja`, `zh`, `ko` |
| PdfProcessorV2.ContentProgressMonotone | backend/services/pdf_processor_v2.py:503-538 | the reported percentages stay within 1 to 100 and never go down |
| PdfProcessorV2.PdfProcessorV2.constructor | backend/services/pdf_processor_v2.py:19-22 | font set-up decides whether a Unicode font is registered, and the font name starts as Helvetica |
| PdfProcessorV2.PdfProcessorV2.SelectCjkFont | backend/services/pdf_processor_v2.py:108-128 | the font becomes the one chosen for the language, and the registered-font flag is unchanged |
| PdfProcessorV2.PdfProcessorV2.ProcessPdf | backend/services/pdf_processor_v2.py:490-544 | success exactly when extraction yields pages and rendering succeeds; no pages fail after progress 1 with the font untouched; otherwise every page is translated, the font is chosen for the language, and success reports 1, 10, the per-item percentages, 95 and 100 |
| EpubProcessorV2.ExtractTranslatableTexts | backend/services/epub_processor_v2.py:22-38 | returns the extraction of the pruned tree: each paragraph-tag element in document order, nested ones included, with stripped text longer than 10 characters |
| EpubProcessorV2.PruneListSkipFree | backend/services/epub_processor_v2.py:27-28 | after decomposition no skip-tag element is left anywhere in the tree |
| EpubProcessorV2.FindParagraphsInSkipFree | backend/services/epub_processor_v2.py:33 | every element find_all returns on the pruned tree is a paragraph-tag element holding no skip-tag element |
| EpubProcessorV2.KeptTextsFrom | backend/services/epub_processor_v2.py:33-36 | every kept text is longer than 10 characters and is the stripped text of one of the found elements |
| EpubProcessorV2.ExtractedTextsAreVisibleProse | backend/services/epub_processor_v2.py:22-38 | every extracted text is longer than 10 characters and is the text of a paragraph-tag element that `find_all` returns on the pruned chapter, containing no script, style, code, pre, meta, link or title element |
| EpubProcessorV2.KeptTextsHas | backend/services/epub_processor_v2.py:33-36 | a found element with stripped text longer than 10 characters has its text kept |
| EpubProcessorV2.EveryLongParagraphExtracted | backend/services/epub_processor_v2.py:22-38 | conversely, every paragraph-tag element of the pruned tree with text longer than 10 characters, nested or not, is extracted |
| EpubProcessorV2.ReplaceKeepsShape | backend/services/epub_processor_v2.py:40-53 | replacement keeps the number and kind of nodes at each level, every text node, and every element's tag, attributes and identity |
| EpubProcessorV2.ReplaceNothingMatched | backend/services/epub_processor_v2.py:45-47 | when no paragraph-tag element's text is a key, the tree comes back unchanged |
| EpubProcessorV2.ReplaceMatched | backend/services/epub_processor_v2.py:47-50 | a paragraph-tag element whose text is a key keeps its tag and attributes and holds the translation alone |
| EpubProcessorV2.ReplacedIdsOfUnmatched | backend/services/epub_processor_v2.py:45-47 | when no paragraph-tag element's text is a key, no element is overwritten |
| EpubProcessorV2.InlineCodeKey | backend/services/epub_processor_v2.py:45-46 | the replacement key of a paragraph holding inline `code` includes the code's text |
| EpubProcessorV2.InlineCodeExtracted | backend/services/epub_processor_v2.py:27-36 | the extracted text of that paragraph leaves the code's text out |
| EpubProcessorV2.InlineCodeParagraphMissed | backend/services/epub_processor_v2.py:27-47 | with a translation for exactly the extracted texts, the paragraph is not replaced and the chapter comes back unchanged |
| EpubProcessorV2.InlineCodeUnmatched | backend/services/epub_processor_v2.py:45-50 | without a translation under that paragraph's own key, nothing in the chapter is overwritten |
| EpubProcessorV2.InlineCodeChapterUnchanged | backend/services/epub_processor_v2.py:27-47 | whatever the translator returns, the as-written chapter translation leaves the inline-code chapter unchanged |
| EpubProcessorV2.ReplaceNode | backend/services/epub_processor_v2.py:40-53 | text nodes are kept; an element keeps its tag, attributes and identity; a paragraph-tag element whose unpruned stripped text has a translation gets that translation as its only child |
| EpubProcessorV2.ReplaceList | backend/services/epub_processor_v2.py:44-51 | the replaced sibling list has as many nodes as the original |
| EpubProcessorV2.ChapterFixedCoversExtracted | backend/services/epub_processor_v2.py:55-89 | with replacement keyed by the pruned text, a chapter with texts is rewritten so that every paragraph of the pruned tree with text longer than 10 characters is replaced |
| EpubProcessorV2.InlineCodeChapterFixed | backend/services/epub_processor_v2.py:27-47 | with replacement keyed by the pruned text, the inline-code paragraph becomes its translated prose as the only child |
| EpubProcessorV2.TranslateHtmlContentFixed | backend/services/epub_processor_v2.py:55-89 | the same loop with replacement keyed by the pruned text: the result is the corrected chapter translation, with one block step per text |
| EpubProcessorV2.FindParagraphsAppend | backend/services/epub_processor_v2.py:33 | find_all over concatenated contents is the concatenation of the two searches |
| EpubProcessorV2.PrunedParagraphIds | backend/services/epub_processor_v2.py:27-33 | every element found after pruning is an element of the original tree |
| EpubProcessorV2.ExtractedCoveredFixed | backend/services/epub_processor_v2.py:40-53 | with replacement keyed by the visible text, every long enough paragraph whose text has a translation is overwritten, alone or inside an enclosing one |
| EpubProcessorV2.ExtractedParagraphsReplacedFixed | backend/services/epub_processor_v2.py:55-85 | once every extracted text has a translation, every extracted paragraph is overwritten by the visible-text-keyed replacement |
| EpubProcessorV2.TranslateTexts | backend/services/epub_processor_v2.py:66-79 | the table maps each text to its translation, or to itself when translation raises, and progress is (i+1, n) for each text in order, reported before that text is translated |
| EpubProcessorV2.TranslationTableFacts | backend/services/epub_processor_v2.py:66-79 | the table has an entry for exactly the extracted texts, with the translation when it succeeds and the text itself when it raises |
| EpubProcessorV2.TranslateHtmlContent | backend/services/epub_processor_v2.py:55-89 | an unparsable chapter or one with no texts comes back unchanged with no block progress; otherwise the chapter is rewritten as written: each paragraph is looked up in the translation table under its text on the unpruned tree, with one block step per text |
| EpubProcessorV2.TranslateChapters | backend/services/epub_processor_v2.py:116-138 | the loop stops at the first item that does not decode as UTF-8, after reporting its chapter step; each earlier item gets its chapter's translation as written (keyed by unpruned text), with the chapter step (i+1, n) reported before its block steps |
| EpubProcessorV2.ProcessEpub | backend/services/epub_processor_v2.py:91-158 | an unreadable book or one with no document items fails with no progress; otherwise the chapters are translated in order up to the first that does not decode, which fails the book after the earlier chapters' progress; when every chapter decodes the result is a write failure, a validation failure carrying the validator's errors, or success |
| EpubProcessor.FindBodyList | backend/services/epub_processor.py:38-40 | the element `find('.//body')` returns, if any, is a `body` element from the given contents, so its paragraphs are paragraphs of the document |
| EpubProcessor.ExtractSafeTexts | backend/services/epub_processor.py:25-64 | a skip-tag or skip-container element yields nothing; a paragraph-tag element that is not skipped yields exactly one block, its stripped text anchored at itself, when that text is longer than 10 characters, and nothing otherwise, without visiting its children |
| EpubProcessor.ExtractSound | backend/services/epub_processor.py:25-64 | every extracted block is the stripped text content of some paragraph-tag element of the tree, with that element's anchor, and is longer than 10 characters |
| EpubProcessor.ExtractListSound | backend/services/epub_processor.py:59-62 | the same for the child loop: every block comes from a paragraph element among the children |
| EpubProcessor.ExtractExceptHeadSound | backend/services/epub_processor.py:43-46 | the same for the loop of a body-less html element that passes over head children |
| EpubProcessor.ExtractComplete | backend/services/epub_processor.py:25-64 | a block is extracted exactly when the walk reaches its paragraph element (not inside a skipped element or another paragraph, through the first body of `html`, or past `head` without one) and its text is longer than 10 characters |
| EpubProcessor.ExtractListComplete | backend/services/epub_processor.py:59-62 | the same for the child loop |
| EpubProcessor.ExtractExceptHeadComplete | backend/services/epub_processor.py:43-46 | the same for the loop of a body-less html element that passes over head children |
| EpubProcessor.HeadCheckRedundant | backend/services/epub_processor.py:43-46 | passing over `head` children extracts the same blocks as visiting them, since `head` is a skip tag |
| EpubProcessor.ReplaceInBody | backend/services/epub_processor.py:77-80 | the body-replacement path applies exactly when the document has a body element |
| EpubProcessor.ReplaceUnmatchedIdentity | backend/services/epub_processor.py:66-105 | when no mapped text has a translation, replace_safe_texts leaves the tree exactly as it was |
| EpubProcessor.ReplaceListUnmatched | backend/services/epub_processor.py:102-105 | the same for the child loop |
| EpubProcessor.ReplaceSafeTexts | backend/services/epub_processor.py:66-105 | text is kept; an element keeps its tag and identity; a skip-tag or skip-container element is untouched; a paragraph-tag element is cleared and given the translation exactly when its map entry has one, and otherwise kept |
| EpubProcessor.ReplaceExceptHeadUnmatched | backend/services/epub_processor.py:82-85 | the same for the loop of a body-less html element |
| EpubProcessor.ReplaceInBodyUnmatched | backend/services/epub_processor.py:77-80 | the same for the body found below an html element |
| EpubProcessor.ReplacedParagraphLosesTail | backend/services/epub_processor.py:90-101 | a matched paragraph keeps only its tag and identity: its attributes and children go, its text content is the translation, and the character data after it is removed too |
| EpubProcessor.GetChapterFiles | backend/services/epub_processor.py:158-170 | returns, in spine order, each spine idref found in the manifest dictionary whose href ends in .xhtml, .html or .htm in any case |
| EpubProcessor.LastDuplicateWins | backend/services/epub_processor.py:160 | when a manifest id occurs more than once, the dictionary maps it to the href of its last occurrence |
| EpubProcessor.ChapterFilesAppend | backend/services/epub_processor.py:163-168 | chapter listing distributes over the spine, so a repeated idref is listed again |
| EpubProcessor.ChapterFilesMembership | backend/services/epub_processor.py:158-170 | a (idref, href) pair is listed exactly when the idref is in the spine, the manifest maps it to href, and href names an XHTML or HTML file |
| EpubProcessor.RebuildEpub | backend/services/epub_processor.py:517-533 | the top-level `mimetype`, if present, is written first and stored; then every other walked file follows, in walk order and compressed |
| EpubProcessor.SlashSurvivesReplace | backend/services/epub_processor.py:532 | turning backslashes into slashes keeps a name that had a separator from losing it |
| EpubProcessor.ArcNameMimetype | backend/services/epub_processor.py:526-532 | only the top-level file `mimetype` has the archive name "mimetype" |
| EpubProcessor.WalkEntriesNotMimetype | backend/services/epub_processor.py:528-529 | the walk writes no entry named "mimetype", since every file so named is skipped, top-level or not |
| EpubProcessor.WalkEntriesMembership | backend/services/epub_processor.py:526-533 | an entry is written by the walk exactly when some walked file not named `mimetype` gives it, compressed, under its relative name |
| EpubProcessor.LookupFirstOnly | backend/services/epub_processor.py:523 | when the first entry is the only one with a name, looking that name up finds the first entry |
| EpubProcessor.RebuiltMimetypeCheck | backend/services/epub_processor.py:517-533 | the rebuilt archive passes the validator's mimetype check exactly when the unpacked book had a top-level `mimetype` whose stripped content is "application/epub+zip" |
| EpubProcessor.TranslateChapterWithProgress | backend/services/epub_processor.py:172-277 | translate_chapter and translate_chapter_with_progress return the chapter unchanged and report no progress, because the extraction helper they call is not defined |
| App.ApplyUpdatesFrame | backend/app.py:89-97 | update_job's keyword arguments never change the id, file type, language, input path or creation time; status and output path keep their values unless an argument names them |
| App.LastStatusWins | backend/app.py:89-97 | the last `status` argument decides the status whatever came before, so nothing stops a DONE or ERROR job from being set back to RUNNING |
| App.CapLog | backend/app.py:108-110 | trimming keeps exactly the last min(n, 100) entries, in order |
| App.LogsAfterFacts | backend/app.py:100-110 | after any sequence of add_job_log calls a log of at most 100 entries still holds at most 100, and the newest message is last |
| App.LogsAfterConcat | backend/app.py:100-110 | logging one list of messages and then another is the same as logging their concatenation |
| App.PercentFacts | backend/app.py:115 | progress is 0..100 for 0 <= current <= total, exactly 100 at current == total, and monotone in current; it is not clamped, so current >= 2*total gives at least 200 |
| App.CallbackUpdatesApplied | backend/app.py:113-127 | progress_callback's update sets the truncated percentage, a current-progress record with a chapter only for EPUB and a page only for PDF, and the update time, and nothing else |
| App.OutputPathNonEmpty | backend/app.py:134 | replacing '.epub' (or '.pdf') in a non-empty input path gives a non-empty output path |
| App.OutcomeApplied | backend/app.py:144-166 | a success sets DONE, progress 100 and the output path; a failed result sets ERROR with a "Processing" error; an exception sets ERROR with the exception's message |
| App.FinishedJobFacts | backend/app.py:130-203 | whatever the callbacks recorded, a finished job is DONE at 100 with its output path on success and ERROR with a "Processing" error otherwise, and keeps its identity |
| App.AfterCallsKeepsIdentity | backend/app.py:113-127 | progress callbacks never change a job's id, type, input path or status |
| App.OutputPathWithoutExtension | backend/app.py:134 | an input path without a lower-case ".epub" is its own output path, so BOOK.EPUB is written over itself |
| App.StatusOf | backend/app.py:272-293 | unknown id: not found; otherwise status and progress as stored, and a download URL "/jobs/{id}/download" exactly when the job is DONE with a non-empty output path |
| App.DownloadOf | backend/app.py:296-325 | unknown id: 404 "Job not found"; not DONE or no output path: 400 "Translation not completed"; a file reply exactly when DONE with an output path that exists, carrying that path and the media type of the job's file type |
| App.FinishedJobServed | backend/app.py:130-150 | a job that finished successfully reports a download URL and, once its output exists, is served |
| App.JobLedger.constructor | backend/app.py:47-54 | the ledger starts with no jobs and no logs |
| App.JobLedger.CreateJob | backend/app.py:63-86 | the new job is stored under its id (RUNNING, progress 0, zero stats, no output path or error) with an empty log list, and the ledger invariant holds |
| App.JobLedger.UpdateJob | backend/app.py:89-97 | unknown id: nothing changes; otherwise only that job changes, to its updated value with the new update time; logs are untouched |
| App.JobLedger.AddJobLog | backend/app.py:100-110 | unknown id: nothing changes; otherwise the entry goes last in that job's log, which is trimmed to its last 100 entries; jobs are untouched |
| App.JobLedger.ProgressCallback | backend/app.py:113-127 | unknown id: nothing changes; otherwise only that job's progress, current item and update time change |
| App.JobLedger.ProcessEpubJob | backend/app.py:130-166 | a known job ends as its callbacks and outcome dictate, with output path input.replace('.epub', '_translated.epub'); its log gains the start message and one "Processing" line per callback; an unknown id changes nothing |
| App.JobLedger.RunLoggedCallbacks | backend/app.py:133-142 | the start message is logged, then each callback updates the job and logs its item |
| App.JobLedger.ProcessPdfJob | backend/app.py:169-203 | a known job ends as its callbacks and outcome dictate, with output path input.replace('.pdf', '_translated.pdf'); no log is written; an unknown id changes nothing |
| App.JobLedger.RunCallbacks | backend/app.py:174-175 | each callback updates the job in order and the logs are untouched |
| App.JobLedger.RunLoggingCallbacks | backend/app.py:136-138 | each callback updates the job and appends "Processing {item}" to its log, in order |
| App.JobLedger.GetJobStatus | backend/app.py:272-293 | not found exactly for an unknown id; otherwise the job's status and progress, with the download link `/jobs/<id>/download` exactly when the job is done and has an output path |
| App.JobLedger.DownloadResult | backend/app.py:296-325 | unknown id: "Job not found"; a job not done or without output: "Translation not completed"; the file is served exactly when the job is done with an output path that exists, and it is that output path |
| App.JobLedger.GetJobLogs | backend/app.py:348-358 | not found exactly when the id has no log list; otherwise that job's log |
| Validators.Lookup | backend/services/validators.py:28-34 | the entry found for a name exists exactly when the archive has an entry so named, and carries that name |
| Validators.MimetypeError | backend/services/validators.py:18-42 | no error exactly when the archive opens and its first entry is `mimetype`, stored, with stripped content "application/epub+zip"; an unreadable or empty archive is an error |
| Validators.ContainerCheck | backend/services/validators.py:44-72 | a package path is returned only when the archive opens, a rootfile gives a non-empty full-path, and that path names an entry |
| Validators.SpineErrorsEmpty | backend/services/validators.py:108-112 | the spine check adds no error exactly when every spine idref is a manifest id |
| Validators.OpfCheckSpineCovered | backend/services/validators.py:74-117 | when validate_opf adds no error, every returned spine idref names a returned manifest item |
| Validators.MissingFileErrorsEmpty | backend/services/validators.py:126-134 | no missing-file error exactly when every manifest item's path is an entry name |
| Validators.ManifestPathJoins | backend/services/validators.py:128-131 | with a base other than "." and no doubled slash, an item is looked up under base + "/" + href |
| Validators.ValidReportSound | backend/services/validators.py:169-210 | a valid report implies the mimetype rule holds, the container names an existing package, manifest and spine are non-empty, every spine idref is in the manifest, every manifest file exists, and epubcheck did not exit non-zero |
| Validators.EarlyFailureStops | backend/services/validators.py:174-189 | a failing mimetype or container stage gives an invalid report with that single error and no warnings |
| Validators.EpubcheckOnlyFailsOnExitCode | backend/services/validators.py:141-167 | a timeout, missing tool or crash adds exactly one warning and leaves validity and errors as after a clean run |
| Validators.EpubValidator.constructor | backend/services/validators.py:14-16 | both lists start empty |
| Validators.EpubValidator.ValidateMimetype | backend/services/validators.py:18-42 | returns true exactly when the mimetype rule holds; otherwise appends exactly that stage's one error |
| Validators.EpubValidator.ValidateContainerXml | backend/services/validators.py:44-72 | returns the package path exactly when the container check passes; otherwise appends one error and returns None |
| Validators.EpubValidator.CollectItems | backend/services/validators.py:90-94 | keeps the manifest items with both a non-empty id and href, in order |
| Validators.EpubValidator.CollectIdrefs | backend/services/validators.py:103-106 | keeps the non-empty spine idrefs, in order |
| Validators.EpubValidator.CheckSpine | backend/services/validators.py:108-112 | appends one error per spine idref missing from the manifest, repeats included, in spine order |
| Validators.EpubValidator.ValidateOpf | backend/services/validators.py:74-117 | no manifest: ([], []) and one error; no spine: (items, []) and one error; otherwise items and spine are returned even when idrefs are missing |
| Validators.EpubValidator.ValidateFileExistence | backend/services/validators.py:119-139 | appends one error per missing manifest path and returns true exactly when the whole error list, earlier errors included, is empty |
| Validators.EpubValidator.RunEpubcheck | backend/services/validators.py:141-167 | only a non-zero exit appends an error and returns false; a timeout, missing tool or other exception appends a warning and returns true |
| Validators.EpubValidator.ValidateEpub | backend/services/validators.py:169-210 | resets both lists, runs the stages until one fails, and returns the staged report, whose lists are the validator's lists |
| Security.ExtensionCheckImpliesAllowedType | backend/services/security.py:34-37 | a plain file name that passes the extension check also passes the helper's extension check with the same list |
| Security.SuffixOfPlainName | backend/services/security.py:36 | without a directory part, the suffix is a tail of the file name |
| Security.DotfileExtension | backend/services/security.py:34-37 | the two checks disagree on a file named only `.epub`: it has no suffix, so this check rejects it, while the helper's `endswith` check accepts it |
| Security.ScannedPrefix | backend/services/security.py:65 | the bytes scanned are a prefix of the file of length min(max_scan_size, size), or the whole file for a negative size |
| Security.LowerBytes | backend/services/security.py:68 | only the bytes `A`-`Z` change, each to its lower-case letter |
| Security.FindPatterns | backend/services/security.py:67-69 | the loop reports, in list order, exactly the patterns that occur in the lowered content |
| Security.ScanForMaliciousContent | backend/services/security.py:58-73 | one threat per pattern found in the lowered first `max_scan_size` bytes, or a single scan-failure threat when the file cannot be read |
| Security.PatternsFoundSound | backend/services/security.py:67-69 | no more threats than patterns; a pattern is reported exactly when it is listed and occurs in the lowered content |
| Security.CollectErrors | backend/services/security.py:100-114 | the file is valid exactly when there are no errors, exactly when all three checks pass; the errors are those of the failed checks in the order extension, size, type |
| Security.ValidateFileExtension | backend/services/security.py:34-37 | true exactly when the lowercased suffix is `.epub` or `.pdf` |
| Security.ValidateFileSize | backend/services/security.py:40-42 | true exactly when the size is at most 100 MiB |
| Security.ValidateMimeType | backend/services/security.py:44-55 | a detected type is accepted only for `epub` or `pdf`: `application/zip` exactly for `epub`, `application/pdf` exactly for `pdf`; when detection fails, the extension check decides |
| Security.CollectWarnings | backend/services/security.py:116-126 | the warnings are the scan's threats and then a hash failure if hashing raised; the hash is kept when it succeeded |
| Security.ValidateFile | backend/services/security.py:85-128 | a missing file gives only "File not found"; otherwise validity is exactly that the extension, size and type checks pass, errors list the failed checks in order, warnings never affect validity |
| Security.RateLimiter.constructor | backend/services/security.py:134-137 | no client is recorded, and the limits are the configured ones |
| Security.RateLimiter.GetRemainingRequests | backend/services/security.py:162-167 | an unknown client has the full allowance; a known one has `max(0, max_requests - count)`, never negative |
| Security.RateLimiter.IsAllowed | backend/services/security.py:139-160 | the client's timestamps are pruned to the window; the request is allowed exactly when fewer than `max_requests` remain, and then `now` is recorded; no client ever holds more than the limit |
| Security.Recent | backend/services/security.py:147-150 | the pruned list keeps exactly the timestamps of the list that are still inside the window |
| Security.RecentAppend | backend/services/security.py:147-150 | pruning keeps order: the kept timestamps of a concatenation are those of each part, in turn, and a single timestamp is kept exactly when it is inside the window |
| Utils.NormalizeZipPath | backend/services/utils.py:32-40 | a base of `.` returns the href untouched; any other base yields a path with no backslash |
| Utils.OneSegmentBaseKeepsHref | backend/services/utils.py:32-40 | with a one-component base such as `content.opf`, an already normal href comes back unchanged |
| Utils.NestedBaseJoinsHref | backend/services/utils.py:32-40 | with a base `d1/.../dk/file`, a relative, already normal href lands under `d1/.../dk/` |
| Utils.IsAllowedFileType | backend/services/utils.py:47-50 | true exactly when the lowercased name ends with one of the extensions |

## Left out

- The OpenAI client, the asyncio semaphore and real sleeps are left out. Each back-off wait is recorded as a value (`Translator.Run.delays`), and `as_completed` is any order that yields every task once.
- Parsing and serialisation are left out. This covers lxml, BeautifulSoup, ebooklib, pdfminer and pdfplumber, whose output is an input here. lxml comments and processing instructions are not modelled.
- Rendering is left out: `create_pdf_from_paragraphs`, `create_pdf_from_content`, font registration (`setup_fonts`) and the strict-mode retry inside rendering. A renderer that succeeds or raises is a boolean input.
- Unicode NFKC normalisation is an uninterpreted function parameter of `PdfProcessorV2.PrepareTextForPdf`.
- Files and archives are left out: zip reading and writing, `os.walk`, temporary directories, `cleanup_old_files`, `get_file_size`, `generate_job_id`, `create_temp_dir`, SHA-256 hashing, MIME sniffing and the epubcheck subprocess. Their results are inputs.
- The FastAPI routes are not modelled as HTTP handlers: uploads, the health check, CORS and the static files. The threading locks are left out as well, and the ledger is modelled sequentially.
- Logging and the `preview_*` debug functions are left out.
- The first EPUB processor's `process_epub`, `parse_container_xml`, `parse_opf`, `translate_toc_ncx`, `translate_nav_xhtml` and `preview_epub_content` are not modelled. The job runner uses the second processor, and the validator covers container and package parsing.
- The `Canceled` status exists in `App.JobStatus` but no operation produces it, matching the source.
- App.PercentFacts: the percentage `int(current / total * 100)` is computed with integer division. The floating-point quotient can be one unit lower (29/100 gives 28). The stated properties do not depend on that unit.
- PdfProcessor.TranslationStep: `20 + int(current / total * 70)` is computed with integer division, which does not model that floating-point rounding either.
- PdfProcessorV2.ContentProgressMonotone: `10 + int(current / total * 80)` is computed with integer division, for the same reason.
- Translator.TranslateText: the waits are real numbers (`2^k` and `1.5 * 2^k`), not the floats `asyncio.sleep` receives. The prompt text is not modelled.
- Translator.AttemptsAcceptedEarly: the ASCII-ratio test `ascii / max(1, len) > 0.95` is stated as `20 * ascii > 19 * max(1, len)`, which is the same test on exact rationals.
- Security.ScanForMaliciousContent: an error message's text is abstract. A read error carries a message, and the exact wording is not modelled.
- Security.RateLimiter.IsAllowed: the clock reading `time.time()` is the parameter `now`.
- App.JobLedger.UpdateJob: keyword arguments are limited to the job fields the source passes: status, progress, output path, last error, current item and stats.
- Utils.NormalizeZipPath: paths follow POSIX `pathlib`. Windows drive letters are not modelled.
- PdfProcessor.TranslateParagraphs: the translator is an oracle that returns a text or raises. `translate_text` also returns `None` when `max_retries` (`TRANS_MAX_RETRIES`, 3 by default) is 0 or less (translator.py:49-91), and the paragraph list would then hold `None`. The processors are modelled for at least one attempt.
- PdfProcessorV2.TranslateRow: for the same reason, a `None` cell from a translator with no attempts is not modelled.
- EpubProcessorV2.TranslateTexts: for the same reason, a `None` translation from a translator with no attempts is not modelled.
- EpubProcessorV2.ReplaceNode: the replacement key is the text of every string below the element, as `get_text()` gives it in Beautiful Soup releases that do not skip script, style and template strings; newer releases leave those out. The Beautiful Soup version is not pinned in the repository.
- PdfProcessor.TranslateParagraphs: the digit test `IsDigits` accepts only ASCII digits, while `str.isdigit` (pdf_processor.py:178) also accepts other Unicode digits such as Arabic-Indic ones, so a paragraph of those is sent to translation in the model but kept by the source.
- Strings.Lower: lowercasing is ASCII-only, unlike Unicode `str.lower`. It affects non-ASCII letters only, in the font choice (`FontFor`), file suffixes (`Suffix`) and tag-name tests.
- Security.ValidateFileSize: the limit is the default 104857600 bytes; the `UPLOAD_MAX_SIZE` environment override (security.py:18) is not modelled.
- Security.CollectWarnings: a hash failure is the warning "Failed to calculate file hash" without the exception text that follows it in the source.
- App.JobLedger.DownloadResult: the existence test `os.path.exists` is the parameter `fileExists`.

In these cases the model follows what the code does, not what a reader of its names or docstrings might expect:
- `App.LastStatusWins`: a finished job can still be changed by `update_job` (app.py:89-97 has no status guard).
- `EpubProcessor.ReplacedParagraphLosesTail`: the first processor's replacement drops a paragraph's attributes and the text that follows it, because lxml's `clear()` removes both (epub_processor.py:90-101).
- `App.PercentFacts`: progress is not clamped to 100 (app.py:113-127).

## Findings

| source | as written | input that shows it | evidently intended | confidence | as-written member | corrected member |
|---|---|---|---|---|---|---|
| backend/services/pdf_processor.py:276-283 | `translation_progress` takes two arguments, but `translate_paragraphs` calls it with four, outside its `try`, so the `TypeError` ends `process_pdf` in failure | any PDF with at least one paragraph, with a progress callback given | a four-argument callback, so translation runs and progress goes 20 to 90 | high, not executed | PdfProcessor.ProcessPdf | PdfProcessor.ProcessPdfFixed |
| backend/services/pdf_processor_v2.py:346-356 | in strict mode HTML escaping runs before NFKC normalisation, and NFKC can produce a new `<` | the text "＜" (U+FF1C) with `strict=True` comes out as a raw `<` | no `<` or `>` in the prepared text in either mode | medium, not executed | PdfProcessorV2.StrictModeLeaksBracket | PdfProcessorV2.PreparedTextFixedFacts |
| backend/services/epub_processor_v2.py:27-47 | extraction prunes skip tags before taking a paragraph's text, but replacement computes its key on the unpruned tree | `<p>Run <code>ls</code> to see all</p>` with every extracted text translated is not replaced | every extracted paragraph replaced by its translation | high, not executed | EpubProcessorV2.InlineCodeParagraphMissed | EpubProcessorV2.ExtractedParagraphsReplacedFixed |
