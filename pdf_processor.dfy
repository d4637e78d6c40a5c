/**
 * The first PDF processor: text boxes in reading order, boxes merged into paragraphs by a
 * line-height threshold and a horizontal overlap ratio, paragraphs translated one by one, and
 * the `process_pdf` pipeline around them. The layout parser, the translator and the renderer
 * are inputs: the parser's text containers (or that it raised), the translation function `tr`,
 * and whether building the output document succeeds.
 */
module PdfProcessor {
  import opened Strings
  import opened Translator
  import opened Arith

  /** A bounding box `(x0, y0, x1, y1)`: left, bottom, right, top. */
  datatype BBox = BBox(x0: real, y0: real, x1: real, y1: real)

  /** One text box of a page: its stripped text, its box and its 1-based page number. */
  datatype TextBox = TextBox(text: string, bbox: BBox, page: nat)

  /** A text container as the layout parser reports it. */
  datatype Element = Element(text: string, bbox: BBox)

  // ----- Reading order -----

  /** The sort key `(-bbox[3], bbox[0])`: `a` sorts no later than `b`. */
  predicate KeyLe(a: TextBox, b: TextBox)
  {
    a.bbox.y1 > b.bbox.y1 || (a.bbox.y1 == b.bbox.y1 && a.bbox.x0 <= b.bbox.x0)
  }

  /** Top to bottom, and left to right among boxes with the same top edge. */
  predicate InReadingOrder(boxes: seq<TextBox>)
  {
    forall i, j :: 0 <= i < j < |boxes| ==> KeyLe(boxes[i], boxes[j])
  }

  /** Puts `b` after every box whose key is not larger, so equal keys keep their order. */
  function Insert(b: TextBox, sorted: seq<TextBox>): seq<TextBox>
  {
    if sorted == [] then [b]
    else if KeyLe(sorted[0], b) then [sorted[0]] + Insert(b, sorted[1..])
    else [b] + sorted
  }

  /** `list.sort` with the reading-order key, as a stable insertion sort. */
  function SortBoxes(boxes: seq<TextBox>): seq<TextBox>
  {
    if boxes == [] then [] else Insert(boxes[|boxes| - 1], SortBoxes(boxes[..|boxes| - 1]))
  }

  lemma {:induction false} InsertPermutes(b: TextBox, s: seq<TextBox>)
    ensures multiset(Insert(b, s)) == multiset(s) + multiset{b}
  {
    if s != [] && KeyLe(s[0], b) {
      InsertPermutes(b, s[1..]);
      assert s == [s[0]] + s[1..];
    }
  }

  /** A box sorting no later than `b` and than every box of `s` sorts no later than any box of `Insert(b, s)`. */
  lemma InsertLowerBound(a: TextBox, b: TextBox, s: seq<TextBox>)
    requires KeyLe(a, b) && forall i :: 0 <= i < |s| ==> KeyLe(a, s[i])
    ensures forall j :: 0 <= j < |Insert(b, s)| ==> KeyLe(a, Insert(b, s)[j])
  {
    var r := Insert(b, s);
    InsertPermutes(b, s);
    forall j | 0 <= j < |r| ensures KeyLe(a, r[j]) {
      assert r[j] in multiset(r);
      if r[j] != b {
        assert r[j] in multiset(s);
        var m :| 0 <= m < |s| && s[m] == r[j];
      }
    }
  }

  lemma {:induction false} InsertSorted(b: TextBox, s: seq<TextBox>)
    requires InReadingOrder(s)
    ensures InReadingOrder(Insert(b, s))
    ensures multiset(Insert(b, s)) == multiset(s) + multiset{b}
  {
    InsertPermutes(b, s);
    if s == [] {
    } else if KeyLe(s[0], b) {
      InsertSorted(b, s[1..]);
      InsertLowerBound(s[0], b, s[1..]);
    } else {
      assert KeyLe(b, s[0]);
    }
  }

  /** The page's boxes come out in reading order, and no box is lost or added. */
  lemma {:induction false} SortBoxesCorrect(boxes: seq<TextBox>)
    ensures InReadingOrder(SortBoxes(boxes))
    ensures multiset(SortBoxes(boxes)) == multiset(boxes)
  {
    if boxes != [] {
      var init := boxes[..|boxes| - 1];
      SortBoxesCorrect(init);
      InsertSorted(boxes[|boxes| - 1], SortBoxes(init));
      assert boxes == init + [boxes[|boxes| - 1]];
    }
  }

  /** The boxes kept from one page's containers: stripped text, blank ones dropped, in parser order. */
  function PageBoxes(elements: seq<Element>, page: nat): seq<TextBox>
  {
    if elements == [] then []
    else
      var rest := PageBoxes(elements[1..], page);
      var text := Strip(elements[0].text);
      if text != [] then [TextBox(text, elements[0].bbox, page)] + rest else rest
  }

  /** A box text as extraction leaves it: non-empty, with no surrounding whitespace. */
  predicate IsStrippedText(s: string)
  {
    s != [] && Strip(s) == s
  }

  lemma {:induction false} PageBoxesStripped(elements: seq<Element>, page: nat)
    ensures |PageBoxes(elements, page)| <= |elements|
    ensures forall b :: b in PageBoxes(elements, page) ==> IsStrippedText(b.text) && b.page == page
  {
    if elements != [] {
      PageBoxesStripped(elements[1..], page);
      StripIdempotent(elements[0].text);
    }
  }

  /** One page of `extract_text_with_layout`. */
  function PageLayout(elements: seq<Element>, page: nat): seq<TextBox>
  {
    SortBoxes(PageBoxes(elements, page))
  }

  /**
   * A page's boxes are the page's non-blank containers, stripped, tagged with the page number,
   * and in reading order.
   */
  lemma PageLayoutFacts(elements: seq<Element>, page: nat)
    ensures InReadingOrder(PageLayout(elements, page))
    ensures multiset(PageLayout(elements, page)) == multiset(PageBoxes(elements, page))
    ensures forall b :: b in PageLayout(elements, page) ==> IsStrippedText(b.text) && b.page == page
  {
    SortBoxesCorrect(PageBoxes(elements, page));
    PageBoxesStripped(elements, page);
    forall b | b in PageLayout(elements, page)
      ensures IsStrippedText(b.text) && b.page == page
    {
      assert b in multiset(PageLayout(elements, page));
    }
  }

  /**
   * What extraction yields: one list of boxes per page, or, when the layout parser raised, the
   * whole plain text as one box on page 1, or nothing when that fails too.
   */
  function ExtractSpec(layout: Option<seq<seq<Element>>>, plain: Option<string>): seq<seq<TextBox>>
  {
    match layout
    case Some(pages) => seq(|pages|, k requires 0 <= k < |pages| => PageLayout(pages[k], k + 1))
    case None =>
      match plain
      case Some(text) => [[TextBox(text, BBox(0.0, 0.0, 0.0, 0.0), 1)]]
      case None => []
  }

  /** `extract_text_with_layout`: pages numbered from 1, each page's boxes sorted. */
  method ExtractTextWithLayout(layout: Option<seq<seq<Element>>>, plain: Option<string>)
    returns (pagesContent: seq<seq<TextBox>>)
    ensures pagesContent == ExtractSpec(layout, plain)
    ensures layout.Some? ==> |pagesContent| == |layout.value|
  {
    match layout {
      case Some(pages) =>
        pagesContent := [];
        for k := 0 to |pages|
          invariant |pagesContent| == k
          invariant forall j :: 0 <= j < k ==> pagesContent[j] == PageLayout(pages[j], j + 1)
        {
          var boxes := PageBoxes(pages[k], k + 1);
          pagesContent := pagesContent + [SortBoxes(boxes)];
        }
      case None =>
        match plain {
          case Some(text) => pagesContent := [[TextBox(text, BBox(0.0, 0.0, 0.0, 0.0), 1)]];
          case None => pagesContent := [];
        }
    }
  }

  // ----- Horizontal overlap -----

  function RMax(a: real, b: real): real
  {
    if a >= b then a else b
  }

  function RMin(a: real, b: real): real
  {
    if a <= b then a else b
  }

  function Abs(x: real): real
  {
    if x < 0.0 then -x else x
  }

  /** `calculate_horizontal_overlap`: the shared width over the spanned width, 0 when nothing is spanned. */
  function Overlap(b1: BBox, b2: BBox): real
  {
    var overlapWidth := RMax(0.0, RMin(b1.x1, b2.x1) - RMax(b1.x0, b2.x0));
    var unionWidth := RMax(b1.x1, b2.x1) - RMin(b1.x0, b2.x0);
    if unionWidth == 0.0 then 0.0 else overlapWidth / unionWidth
  }

  lemma OverlapSymmetric(b1: BBox, b2: BBox)
    ensures Overlap(b1, b2) == Overlap(b2, b1)
  {
  }

  /** For well-formed boxes the ratio is a fraction. */
  lemma OverlapIsFraction(b1: BBox, b2: BBox)
    requires b1.x0 <= b1.x1 && b2.x0 <= b2.x1
    ensures 0.0 <= Overlap(b1, b2) <= 1.0
  {
    var overlapWidth := RMax(0.0, RMin(b1.x1, b2.x1) - RMax(b1.x0, b2.x0));
    var unionWidth := RMax(b1.x1, b2.x1) - RMin(b1.x0, b2.x0);
    assert 0.0 <= overlapWidth <= unionWidth;
    if unionWidth != 0.0 {
      FractionBounds(overlapWidth, unionWidth);
    }
  }

  lemma FractionBounds(a: real, b: real)
    requires 0.0 <= a <= b && b != 0.0
    ensures 0.0 <= a / b <= 1.0
  {
    assert a / b * b == a;
  }

  /** Boxes side by side, sharing no width, do not overlap. */
  lemma OverlapDisjoint(b1: BBox, b2: BBox)
    requires b1.x1 <= b2.x0
    ensures Overlap(b1, b2) == 0.0
  {
  }

  /** A box of positive width overlaps itself completely. */
  lemma OverlapSelf(b: BBox)
    requires b.x0 < b.x1
    ensures Overlap(b, b) == 1.0
  {
    var w := b.x1 - b.x0;
    assert RMax(0.0, RMin(b.x1, b.x1) - RMax(b.x0, b.x0)) == w;
    assert RMax(b.x1, b.x1) - RMin(b.x0, b.x0) == w;
    assert w / w == 1.0;
  }

  // ----- Line height and the merge threshold -----

  /** The non-zero distances between the top edges of consecutive boxes. */
  function LineHeights(boxes: seq<TextBox>): seq<real>
  {
    if |boxes| < 2 then []
    else
      var d := Abs(boxes[0].bbox.y1 - boxes[1].bbox.y1);
      (if d > 0.0 then [d] else []) + LineHeights(boxes[1..])
  }

  function Sum(xs: seq<real>): real
  {
    if xs == [] then 0.0 else xs[0] + Sum(xs[1..])
  }

  /** The mean line height, or 20 when no two consecutive tops differ. */
  function AvgLineHeight(boxes: seq<TextBox>): real
  {
    var heights := LineHeights(boxes);
    if heights == [] then 20.0 else Sum(heights) / |heights| as real
  }

  function MergeThreshold(boxes: seq<TextBox>): real
  {
    1.5 * AvgLineHeight(boxes)
  }

  lemma {:induction false} LineHeightsPositive(boxes: seq<TextBox>)
    ensures |LineHeights(boxes)| < |boxes| || boxes == []
    ensures forall x :: x in LineHeights(boxes) ==> x > 0.0
  {
    if |boxes| >= 2 {
      LineHeightsPositive(boxes[1..]);
    }
  }

  lemma {:induction false} SumPositive(xs: seq<real>)
    requires xs != [] && forall x :: x in xs ==> x > 0.0
    ensures Sum(xs) > 0.0
  {
    assert xs[0] in xs;
    if |xs| > 1 {
      assert forall x :: x in xs[1..] ==> x in xs;
      SumPositive(xs[1..]);
    }
  }

  /** The threshold is always positive, so two boxes with touching edges are close enough. */
  lemma ThresholdPositive(boxes: seq<TextBox>)
    ensures MergeThreshold(boxes) > 0.0
  {
    var heights := LineHeights(boxes);
    if heights != [] {
      LineHeightsPositive(boxes);
      SumPositive(heights);
      PositiveQuotient(Sum(heights), |heights| as real);
    }
  }

  lemma PositiveQuotient(a: real, b: real)
    requires a > 0.0 && b > 0.0
    ensures a / b > 0.0
  {
    assert a / b * b == a;
  }

  // ----- Merging boxes into paragraphs -----

  /** The paragraph being built and those already finished. */
  datatype MergeState = MergeState(paragraphs: seq<string>, current: string)

  /** Finishing a paragraph: its stripped text is kept unless it is blank. */
  function Flush(paragraphs: seq<string>, current: string): seq<string>
  {
    var stripped := Strip(current);
    if stripped != [] then paragraphs + [stripped] else paragraphs
  }

  /** Appending a box's text: one space in between unless the paragraph already ends with one. */
  function JoinText(current: string, text: string): string
  {
    if EndsWith(current, " ") then current + text else current + " " + text
  }

  /** The merge condition between consecutive boxes. */
  predicate ShouldMerge(prev: TextBox, curr: TextBox, threshold: real)
  {
    Abs(prev.bbox.y0 - curr.bbox.y1) < threshold && Overlap(prev.bbox, curr.bbox) > 0.7
  }

  /** Box `i` continues the paragraph of box `i - 1`. */
  predicate MergesAt(boxes: seq<TextBox>, i: nat, threshold: real)
    requires 1 <= i < |boxes|
  {
    ShouldMerge(boxes[i - 1], boxes[i], threshold)
  }

  function MergeStep(st: MergeState, prev: TextBox, curr: TextBox, threshold: real): MergeState
  {
    if ShouldMerge(prev, curr, threshold) then MergeState(st.paragraphs, JoinText(st.current, curr.text))
    else MergeState(Flush(st.paragraphs, st.current), curr.text)
  }

  /** The state after the first `k` boxes. */
  function MergeFold(boxes: seq<TextBox>, threshold: real, k: nat): MergeState
    requires 1 <= k <= |boxes|
  {
    if k == 1 then MergeState([], boxes[0].text)
    else MergeStep(MergeFold(boxes, threshold, k - 1), boxes[k - 2], boxes[k - 1], threshold)
  }

  function MergeParagraphsSpec(boxes: seq<TextBox>): seq<string>
  {
    if boxes == [] then []
    else
      var st := MergeFold(boxes, MergeThreshold(boxes), |boxes|);
      Flush(st.paragraphs, st.current)
  }

  /** The first loop of `merge_paragraphs`: the non-zero gaps between consecutive top edges. */
  method CollectLineHeights(boxes: seq<TextBox>) returns (heights: seq<real>)
    ensures heights == LineHeights(boxes)
  {
    heights := [];
    if |boxes| < 2 {
      return;
    }
    for i := 0 to |boxes| - 1
      invariant heights + LineHeights(boxes[i..]) == LineHeights(boxes)
    {
      assert boxes[i..][1..] == boxes[i + 1..];
      var heightDiff := Abs(boxes[i].bbox.y1 - boxes[i + 1].bbox.y1);
      if heightDiff > 0.0 {
        heights := heights + [heightDiff];
      }
    }
  }

  /** `merge_paragraphs`: the line heights first, then one pass that merges or starts anew. */
  method MergeParagraphs(boxes: seq<TextBox>) returns (paragraphs: seq<string>)
    ensures paragraphs == MergeParagraphsSpec(boxes)
  {
    if boxes == [] {
      return [];
    }
    var heights := CollectLineHeights(boxes);
    var avg := if heights != [] then Sum(heights) / |heights| as real else 20.0;
    var threshold := 1.5 * avg;
    assert threshold == MergeThreshold(boxes);
    paragraphs := [];
    var current := "";
    for i := 0 to |boxes|
      invariant i == 0 ==> paragraphs == []
      invariant i >= 1 ==> MergeState(paragraphs, current) == MergeFold(boxes, threshold, i)
    {
      var text := boxes[i].text;
      if i == 0 {
        current := text;
      } else if ShouldMerge(boxes[i - 1], boxes[i], threshold) {
        current := JoinText(current, text);
      } else {
        var stripped := Strip(current);
        if stripped != [] {
          paragraphs := paragraphs + [stripped];
        }
        current := text;
      }
    }
    var stripped := Strip(current);
    if stripped != [] {
      paragraphs := paragraphs + [stripped];
    }
  }

  lemma FlushKeepsParagraphs(paragraphs: seq<string>, current: string)
    requires forall p :: p in paragraphs ==> IsStrippedText(p)
    ensures |Flush(paragraphs, current)| <= |paragraphs| + 1
    ensures forall p :: p in Flush(paragraphs, current) ==> IsStrippedText(p)
  {
    StripIdempotent(current);
  }

  lemma {:induction false} MergeFoldShape(boxes: seq<TextBox>, threshold: real, k: nat)
    requires 1 <= k <= |boxes|
    ensures |MergeFold(boxes, threshold, k).paragraphs| <= k - 1
    ensures forall p :: p in MergeFold(boxes, threshold, k).paragraphs ==> IsStrippedText(p)
  {
    if k > 1 {
      var st := MergeFold(boxes, threshold, k - 1);
      MergeFoldShape(boxes, threshold, k - 1);
      FlushKeepsParagraphs(st.paragraphs, st.current);
    }
  }

  /**
   * No boxes, no paragraphs; otherwise every paragraph is stripped and non-empty, and there are
   * never more paragraphs than boxes.
   */
  lemma MergeParagraphsShape(boxes: seq<TextBox>)
    ensures boxes == [] ==> MergeParagraphsSpec(boxes) == []
    ensures |MergeParagraphsSpec(boxes)| <= |boxes|
    ensures forall p :: p in MergeParagraphsSpec(boxes) ==> IsStrippedText(p)
  {
    if boxes != [] {
      var st := MergeFold(boxes, MergeThreshold(boxes), |boxes|);
      MergeFoldShape(boxes, MergeThreshold(boxes), |boxes|);
      FlushKeepsParagraphs(st.paragraphs, st.current);
    }
  }

  /** Each box on its own: its stripped text, blank ones dropped. */
  function StrippedTexts(boxes: seq<TextBox>): seq<string>
  {
    if boxes == [] then [] else Flush(StrippedTexts(boxes[..|boxes| - 1]), boxes[|boxes| - 1].text)
  }

  /** All boxes run together, joined as `merge_paragraphs` joins them. */
  function JoinAll(boxes: seq<TextBox>): string
    requires boxes != []
  {
    if |boxes| == 1 then boxes[0].text else JoinText(JoinAll(boxes[..|boxes| - 1]), boxes[|boxes| - 1].text)
  }

  lemma {:induction false} NoMergeFold(boxes: seq<TextBox>, threshold: real, k: nat)
    requires 1 <= k <= |boxes|
    requires forall i :: 1 <= i < |boxes| ==> !MergesAt(boxes, i, threshold)
    ensures MergeFold(boxes, threshold, k) == MergeState(StrippedTexts(boxes[..k - 1]), boxes[k - 1].text)
  {
    if k > 1 {
      NoMergeFold(boxes, threshold, k - 1);
      assert !MergesAt(boxes, k - 1, threshold);
      assert boxes[..k - 1][..k - 2] == boxes[..k - 2];
    }
  }

  /** When no consecutive pair qualifies, every non-blank box is a paragraph of its own. */
  lemma NoMergeKeepsEveryBox(boxes: seq<TextBox>)
    requires forall i :: 1 <= i < |boxes| ==> !MergesAt(boxes, i, MergeThreshold(boxes))
    ensures MergeParagraphsSpec(boxes) == StrippedTexts(boxes)
  {
    if boxes != [] {
      NoMergeFold(boxes, MergeThreshold(boxes), |boxes|);
      assert boxes[..|boxes|] == boxes;
    }
  }

  lemma MergingStep(st: MergeState, prev: TextBox, curr: TextBox, threshold: real)
    requires ShouldMerge(prev, curr, threshold)
    ensures MergeStep(st, prev, curr, threshold) == MergeState(st.paragraphs, JoinText(st.current, curr.text))
  {
  }

  lemma {:induction false} AllMergeFold(boxes: seq<TextBox>, threshold: real, k: nat)
    requires 1 <= k <= |boxes|
    requires forall i :: 1 <= i < |boxes| ==> MergesAt(boxes, i, threshold)
    ensures MergeFold(boxes, threshold, k) == MergeState([], JoinAll(boxes[..k]))
  {
    if k > 1 {
      AllMergeFold(boxes, threshold, k - 1);
      var st := MergeFold(boxes, threshold, k - 1);
      assert MergesAt(boxes, k - 1, threshold);
      MergingStep(st, boxes[k - 2], boxes[k - 1], threshold);
      assert boxes[..k][..k - 1] == boxes[..k - 1];
      assert boxes[..k][k - 1] == boxes[k - 1];
      assert JoinAll(boxes[..k]) == JoinText(JoinAll(boxes[..k - 1]), boxes[k - 1].text);
    } else {
      assert boxes[..1] == [boxes[0]];
    }
  }

  /** When every consecutive pair qualifies, the whole run is one paragraph (or none, if blank). */
  lemma AllMergeIsOneParagraph(boxes: seq<TextBox>)
    requires boxes != []
    requires forall i :: 1 <= i < |boxes| ==> MergesAt(boxes, i, MergeThreshold(boxes))
    ensures MergeParagraphsSpec(boxes) == Flush([], JoinAll(boxes))
  {
    AllMergeFold(boxes, MergeThreshold(boxes), |boxes|);
    assert boxes[..|boxes|] == boxes;
  }

  /** A merged paragraph starts with what it had, ends with the new text, and gains at most one space. */
  lemma JoinTextKeepsBoth(current: string, text: string)
    ensures StartsWith(JoinText(current, text), current)
    ensures EndsWith(JoinText(current, text), text)
    ensures |JoinText(current, text)| <= |current| + 1 + |text|
  {
    var r := JoinText(current, text);
    assert r[..|current|] == current;
    assert r[|r| - |text|..] == text;
  }

  // ----- Translating paragraphs -----

  /** `str.isdigit()` over ASCII digits. */
  predicate IsDigits(s: string)
  {
    s != [] && forall i :: 0 <= i < |s| ==> '0' <= s[i] <= '9'
  }

  /** A progress callback, or none; `arity` is how many positional arguments it takes. */
  datatype Callback = NoCallback | Callback(arity: nat)

  /** The first `k` of the `(current, total)` reports for `n` paragraphs. */
  function CountUp(k: nat, n: nat): seq<(nat, nat)>
  {
    seq(k, i requires 0 <= i < k => (i + 1, n))
  }

  /** The paragraphs and the progress reports, or the `TypeError` of a callback that takes other than four arguments. */
  datatype ParagraphsOutcome = Translated(paragraphs: seq<string>, progress: seq<(nat, nat)>) | CallbackTypeError

  /** True when the callback raises on the first paragraph: it cannot take the four arguments it is given. */
  predicate CallbackRaises(callback: Callback, paragraphs: seq<string>)
  {
    callback.Callback? && callback.arity != 4 && paragraphs != []
  }

  /**
   * `translate_paragraphs`: the callback is called before the `try`, so a callback that cannot
   * take four arguments escapes at once; short or all-digit paragraphs pass through and a failed
   * translation keeps the original.
   */
  method TranslateParagraphs(paragraphs: seq<string>, tr: string -> CallResult, callback: Callback)
    returns (out: ParagraphsOutcome)
    ensures CallbackRaises(callback, paragraphs) <==> out == CallbackTypeError
    ensures !CallbackRaises(callback, paragraphs) ==>
      && out.Translated?
      && |out.paragraphs| == |paragraphs|
      && out.progress == (if callback.Callback? then CountUp(|paragraphs|, |paragraphs|) else [])
      && forall i :: 0 <= i < |paragraphs| ==>
           var p := paragraphs[i];
           && (|Strip(p)| < 3 || IsDigits(Strip(p)) || tr(p).Raises? ==> out.paragraphs[i] == p)
           && (|Strip(p)| >= 3 && !IsDigits(Strip(p)) && tr(p).Value? ==> out.paragraphs[i] == tr(p).text)
  {
    var translated: seq<string> := [];
    var progress: seq<(nat, nat)> := [];
    for i := 0 to |paragraphs|
      invariant |translated| == i
      invariant progress == (if callback.Callback? then CountUp(i, |paragraphs|) else [])
      invariant !CallbackRaises(callback, paragraphs) || i == 0
      invariant forall j :: 0 <= j < i ==>
        var p := paragraphs[j];
        && (|Strip(p)| < 3 || IsDigits(Strip(p)) || tr(p).Raises? ==> translated[j] == p)
        && (|Strip(p)| >= 3 && !IsDigits(Strip(p)) && tr(p).Value? ==> translated[j] == tr(p).text)
    {
      var paragraph := paragraphs[i];
      match callback {
        case Callback(arity) =>
          if arity != 4 {
            return CallbackTypeError;
          }
          progress := progress + [(i + 1, |paragraphs|)];
          assert progress == CountUp(i + 1, |paragraphs|);
        case NoCallback =>
      }
      var stripped := Strip(paragraph);
      if |stripped| < 3 || IsDigits(stripped) {
        translated := translated + [paragraph];
        continue;
      }
      match tr(paragraph) {
        case Value(t) => translated := translated + [t];
        case Raises => translated := translated + [paragraph];
      }
    }
    return Translated(translated, progress);
  }

  // ----- The pipeline -----

  /** Why `process_pdf` reports failure. */
  datatype PdfFailure = ExtractFailed | NoParagraphs | CallbackRaised | RenderFailed

  datatype PdfResult = PdfSuccess | PdfFailed(reason: PdfFailure)

  /** All pages' boxes, page after page. */
  function Concat(pages: seq<seq<TextBox>>): seq<TextBox>
  {
    if pages == [] then [] else Concat(pages[..|pages| - 1]) + pages[|pages| - 1]
  }

  /** The paragraphs `process_pdf` builds from the extraction result. */
  function PdfParagraphs(layout: Option<seq<seq<Element>>>, plain: Option<string>): seq<string>
  {
    MergeParagraphsSpec(Concat(ExtractSpec(layout, plain)))
  }

  method ConcatPages(pages: seq<seq<TextBox>>) returns (all: seq<TextBox>)
    ensures all == Concat(pages)
  {
    all := [];
    for k := 0 to |pages|
      invariant all == Concat(pages[..k])
    {
      assert pages[..k + 1][..k] == pages[..k];
      all := all + pages[k];
    }
    assert pages[..|pages|] == pages;
  }

  /**
   * `process_pdf` as it is written: it hands the two-argument `translation_progress` to
   * `translate_paragraphs`, which calls it with four, so it never succeeds once a paragraph
   * exists. `progress` holds the percentages reported to the caller's callback.
   */
  method ProcessPdf(layout: Option<seq<seq<Element>>>, plain: Option<string>,
                    tr: string -> CallResult, renderOk: bool)
    returns (result: PdfResult, progress: seq<int>)
    ensures ExtractSpec(layout, plain) == [] ==> result == PdfFailed(ExtractFailed) && progress == [0]
    ensures ExtractSpec(layout, plain) != [] && PdfParagraphs(layout, plain) == [] ==>
      result == PdfFailed(NoParagraphs) && progress == [0, 10]
    ensures ExtractSpec(layout, plain) != [] && PdfParagraphs(layout, plain) != [] ==>
      result == PdfFailed(CallbackRaised) && progress == [0, 10, 20]
    ensures result != PdfSuccess
  {
    progress := [0];
    var pagesContent := ExtractTextWithLayout(layout, plain);
    if pagesContent == [] {
      return PdfFailed(ExtractFailed), progress;
    }
    progress := progress + [10];
    var allBoxes := ConcatPages(pagesContent);
    var paragraphs := MergeParagraphs(allBoxes);
    if paragraphs == [] {
      return PdfFailed(NoParagraphs), progress;
    }
    progress := progress + [20];
    var outcome := TranslateParagraphs(paragraphs, tr, Callback(2));
    if outcome.CallbackTypeError? {
      return PdfFailed(CallbackRaised), progress;
    }
    progress := progress + [90];
    if !renderOk {
      return PdfFailed(RenderFailed), progress;
    }
    progress := progress + [100];
    result := PdfSuccess;
  }

  /**
   * The rule `translate_paragraphs` applies to each paragraph: one output per paragraph; a short
   * or all-digit paragraph, or one whose translation raises, is kept; any other is translated.
   */
  predicate FollowsParagraphRule(paragraphs: seq<string>, translated: seq<string>, tr: string -> CallResult)
  {
    && |translated| == |paragraphs|
    && forall i :: 0 <= i < |paragraphs| ==>
         var p := paragraphs[i];
         && (|Strip(p)| < 3 || IsDigits(Strip(p)) || tr(p).Raises? ==> translated[i] == p)
         && (|Strip(p)| >= 3 && !IsDigits(Strip(p)) && tr(p).Value? ==> translated[i] == tr(p).text)
  }

  /** `translation_progress`: 20 to 90 percent over the paragraphs (truncating division). */
  function TranslationPercent(current: nat, total: nat): int
  {
    if total == 0 then 20 else 20 + current * 70 / total
  }

  /** The percentages reported while `n` paragraphs are translated. */
  function TranslationProgress(n: nat): seq<int>
  {
    seq(n, i requires 0 <= i < n => TranslationPercent(i + 1, n))
  }

  /**
   * The translation step of `process_pdf` with `translation_progress` taking the four arguments
   * `translate_paragraphs` passes: the translated paragraphs and one percentage per paragraph.
   */
  method TranslationStep(paragraphs: seq<string>, tr: string -> CallResult)
    returns (translated: seq<string>, percents: seq<int>)
    ensures FollowsParagraphRule(paragraphs, translated, tr)
    ensures percents == TranslationProgress(|paragraphs|)
  {
    var outcome := TranslateParagraphs(paragraphs, tr, Callback(4));
    translated := outcome.paragraphs;
    var reports := outcome.progress;
    percents := [];
    for k := 0 to |reports|
      invariant |percents| == k
      invariant forall j :: 0 <= j < k ==> percents[j] == TranslationPercent(reports[j].0, reports[j].1)
    {
      percents := percents + [TranslationPercent(reports[k].0, reports[k].1)];
    }
  }

  /**
   * `process_pdf` with the callback mismatch repaired: it succeeds exactly when text was
   * extracted, a paragraph was found and the output document was built, and then reports one
   * percentage per paragraph between 20 and 90.
   */
  method ProcessPdfFixed(layout: Option<seq<seq<Element>>>, plain: Option<string>,
                         tr: string -> CallResult, renderOk: bool)
    returns (result: PdfResult, progress: seq<int>, translated: seq<string>)
    ensures result == PdfSuccess <==>
      ExtractSpec(layout, plain) != [] && PdfParagraphs(layout, plain) != [] && renderOk
    ensures result == PdfSuccess ==>
      && |translated| == |PdfParagraphs(layout, plain)|
      && progress == [0, 10, 20] + TranslationProgress(|translated|) + [90, 100]
    ensures ExtractSpec(layout, plain) != [] && PdfParagraphs(layout, plain) != [] ==>
      FollowsParagraphRule(PdfParagraphs(layout, plain), translated, tr)
    ensures result.PdfFailed? ==> result.reason != CallbackRaised
  {
    translated := [];
    progress := [0];
    var pagesContent := ExtractTextWithLayout(layout, plain);
    if pagesContent == [] {
      return PdfFailed(ExtractFailed), progress, translated;
    }
    var allBoxes := ConcatPages(pagesContent);
    var paragraphs := MergeParagraphs(allBoxes);
    if paragraphs == [] {
      return PdfFailed(NoParagraphs), [0, 10], translated;
    }
    var percents;
    translated, percents := TranslationStep(paragraphs, tr);
    if !renderOk {
      return PdfFailed(RenderFailed), [0, 10, 20] + percents + [90], translated;
    }
    progress := [0, 10, 20] + percents + [90, 100];
    result := PdfSuccess;
  }

  /** The reported percentages never go down and stay within 0 to 100. */
  lemma FixedProgressMonotone(n: nat)
    ensures var p := [0, 10, 20] + TranslationProgress(n) + [90, 100];
      && (forall i :: 0 <= i < |p| ==> 0 <= p[i] <= 100)
      && (forall i, j :: 0 <= i < j < |p| ==> p[i] <= p[j])
  {
    var p := [0, 10, 20] + TranslationProgress(n) + [90, 100];
    forall i | 3 <= i < 3 + n
      ensures 20 <= p[i] <= 90
    {
      ScaledShare(i - 2, n, n, 70);
    }
    forall i, j | 3 <= i < j < 3 + n
      ensures p[i] <= p[j]
    {
      ScaledShare(i - 2, j - 2, n, 70);
    }
  }
}
