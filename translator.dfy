/**
 * The translation service: one text with bounded retries (`translate_text`), a batch of texts
 * whose completions arrive in any order (`translate_batch`), and the buffer-based splitter
 * (`chunk_text`). The provider is a sequence of outcomes, one per request; sleeps are recorded
 * as the delays they would wait.
 */
module Translator {
  import opened Strings

  /** What one provider request yields: the reply's content, or an exception. */
  datatype Outcome = Ok(content: string) | Fail

  /** What `translate_text` hands back: a text, an exception that escapes, or Python's `None`. */
  datatype TextResult = Returned(text: string) | Raised | NoResult

  /**
   * A `translate_text` call as the document processors see it: the text it hands back, or an
   * exception. The processors take the translator as a function `tr`, so one text always meets
   * one answer.
   */
  datatype CallResult = Value(text: string) | Raises

  /** A whole call: its result, how many provider requests it made, and the back-off waits. */
  datatype Run = Run(result: TextResult, calls: nat, delays: seq<real>)

  /** The outcome of request number `k`; a provider with nothing more to give fails. */
  function OutcomeAt(provider: seq<Outcome>, k: nat): Outcome
  {
    if k < |provider| then provider[k] else Fail
  }

  function Pow2(k: nat): (p: nat)
    ensures p >= 1
  {
    if k == 0 then 1 else 2 * Pow2(k - 1)
  }

  /** The wait after a failed or rejected attempt `k`: 2^k after an exception, 1.5 * 2^k after a rejection. */
  function Delay(provider: seq<Outcome>, k: nat): real
  {
    if OutcomeAt(provider, k).Fail? then Pow2(k) as real else 1.5 * Pow2(k) as real
  }

  predicate IsBlank(text: string)
  {
    Strip(text) == []
  }

  /**
   * The "looks untranslated" test: the output equals the input once spaces are removed, or more
   * than 95% of its characters are ASCII. The target language plays no part in it.
   */
  predicate LooksUntranslated(input: string, output: string)
  {
    RemoveChar(output, ' ') == RemoveChar(input, ' ')
    || 20 * AsciiCount(output) > 19 * Max(1, |output|)
  }

  /** The attempts from number `a` onwards, out of `n`. */
  function Attempts(text: string, a: nat, n: nat, provider: seq<Outcome>): Run
    decreases n - a
  {
    if a >= n then Run(NoResult, 0, [])
    else match OutcomeAt(provider, a)
      case Fail =>
        if a < n - 1 then
          var rest := Attempts(text, a + 1, n, provider);
          Run(rest.result, rest.calls + 1, [Delay(provider, a)] + rest.delays)
        else Run(Raised, 1, [])
      case Ok(content) =>
        var out := Strip(content);
        if a < n - 1 && LooksUntranslated(text, out) then
          var rest := Attempts(text, a + 1, n, provider);
          Run(rest.result, rest.calls + 1, [Delay(provider, a)] + rest.delays)
        else Run(Returned(out), 1, [])
  }

  /** `translate_text` as a function of the text, the retry bound and the provider's outcomes. */
  function TranslateTextSpec(text: string, maxRetries: nat, provider: seq<Outcome>): Run
  {
    if IsBlank(text) then Run(Returned(text), 0, []) else Attempts(text, 0, maxRetries, provider)
  }

  /** One attempt unfolded: retry, accept the stripped reply, or let the exception escape. */
  lemma AttemptsStep(text: string, a: nat, n: nat, provider: seq<Outcome>)
    requires a < n
    ensures var run := Attempts(text, a, n, provider);
      var rest := Attempts(text, a + 1, n, provider);
      var o := OutcomeAt(provider, a);
      && (Retried(text, a, n, provider) ==> run == Run(rest.result, rest.calls + 1, [Delay(provider, a)] + rest.delays))
      && (!Retried(text, a, n, provider) && o.Ok? ==> run == Run(Returned(Strip(o.content)), 1, []))
      && (!Retried(text, a, n, provider) && o.Fail? ==> run == Run(Raised, 1, []))
  {
  }

  /** What remains to be done after `calls` attempts that waited `delays`, put together with them. */
  predicate RetryInvariant(text: string, attempt: nat, n: nat, provider: seq<Outcome>, calls: nat, delays: seq<real>)
  {
    var rest := Attempts(text, attempt, n, provider);
    Attempts(text, 0, n, provider) == Run(rest.result, calls + rest.calls, delays + rest.delays)
  }

  /** A retried attempt adds one request and its wait. */
  lemma RetryStep(text: string, attempt: nat, n: nat, provider: seq<Outcome>, calls: nat, delays: seq<real>)
    requires attempt < n && Retried(text, attempt, n, provider)
    requires RetryInvariant(text, attempt, n, provider, calls, delays)
    ensures RetryInvariant(text, attempt + 1, n, provider, calls + 1, delays + [Delay(provider, attempt)])
  {
    AttemptsStep(text, attempt, n, provider);
    var rest := Attempts(text, attempt + 1, n, provider);
    assert delays + [Delay(provider, attempt)] + rest.delays == delays + ([Delay(provider, attempt)] + rest.delays);
  }

  /** An attempt that is not retried ends the call with its own result. */
  lemma FinalStep(text: string, attempt: nat, n: nat, provider: seq<Outcome>, calls: nat, delays: seq<real>)
    requires attempt < n && !Retried(text, attempt, n, provider)
    requires RetryInvariant(text, attempt, n, provider, calls, delays)
    ensures var o := OutcomeAt(provider, attempt);
      Attempts(text, 0, n, provider) == Run(if o.Ok? then Returned(Strip(o.content)) else Raised, calls + 1, delays)
  {
    AttemptsStep(text, attempt, n, provider);
    assert delays + [] == delays;
  }

  /** `translate_text`: the retry loop over at most `maxRetries` attempts. */
  method TranslateText(text: string, targetLang: string, maxRetries: nat, provider: seq<Outcome>)
    returns (r: TextResult, calls: nat, delays: seq<real>)
    ensures Run(r, calls, delays) == TranslateTextSpec(text, maxRetries, provider)
    ensures IsBlank(text) ==> r == Returned(text) && calls == 0
  {
    if IsBlank(text) {
      return Returned(text), 0, [];
    }
    calls, delays := 0, [];
    var attempt := 0;
    assert delays + Attempts(text, 0, maxRetries, provider).delays == Attempts(text, 0, maxRetries, provider).delays;
    while attempt < maxRetries
      invariant attempt <= maxRetries && calls == attempt
      invariant RetryInvariant(text, attempt, maxRetries, provider, calls, delays)
      decreases maxRetries - attempt
    {
      match OutcomeAt(provider, attempt) {
        case Fail =>
          if attempt < maxRetries - 1 {
            RetryStep(text, attempt, maxRetries, provider, calls, delays);
            delays := delays + [Pow2(attempt) as real];
          } else {
            FinalStep(text, attempt, maxRetries, provider, calls, delays);
            return Raised, calls + 1, delays;
          }
        case Ok(content) =>
          var out := Strip(content);
          if attempt < maxRetries - 1 && LooksUntranslated(text, out) {
            RetryStep(text, attempt, maxRetries, provider, calls, delays);
            delays := delays + [1.5 * Pow2(attempt) as real];
          } else {
            FinalStep(text, attempt, maxRetries, provider, calls, delays);
            return Returned(out), calls + 1, delays;
          }
      }
      calls := calls + 1;
      attempt := attempt + 1;
    }
    return NoResult, calls, delays;
  }

  /**
   * The retry bound is respected: attempts `a..n-1` make at most `n - a` requests, wait once
   * between consecutive requests, each wait being the one its attempt's outcome calls for; and
   * they fall through to `None` exactly when there is no attempt left to make.
   */
  lemma {:induction false} AttemptsBounded(text: string, a: nat, n: nat, provider: seq<Outcome>)
    ensures var run := Attempts(text, a, n, provider);
      && (a < n ==> 1 <= run.calls <= n - a)
      && (a >= n ==> run.calls == 0)
      && (run.result == NoResult <==> a >= n)
      && (run.calls > 0 ==> |run.delays| == run.calls - 1)
      && (forall k :: 0 <= k < |run.delays| ==> run.delays[k] == Delay(provider, a + k))
    decreases n - a
  {
    if a < n {
      var o := OutcomeAt(provider, a);
      var retried := a < n - 1 && (o.Fail? || LooksUntranslated(text, Strip(o.content)));
      if retried {
        AttemptsBounded(text, a + 1, n, provider);
        var rest := Attempts(text, a + 1, n, provider);
        var run := Attempts(text, a, n, provider);
        assert run.delays == [Delay(provider, a)] + rest.delays;
        forall k | 0 <= k < |run.delays|
          ensures run.delays[k] == Delay(provider, a + k)
        {
          if k > 0 {
            assert run.delays[k] == rest.delays[k - 1];
          }
        }
      }
    }
  }

  /** Attempt `a` is followed by another one: it failed or was rejected, and it was not the last. */
  predicate Retried(text: string, a: nat, n: nat, provider: seq<Outcome>)
  {
    var o := OutcomeAt(provider, a);
    a < n - 1 && (o.Fail? || LooksUntranslated(text, Strip(o.content)))
  }

  /** Every accepted output is stripped. */
  lemma {:induction false} AttemptsStripped(text: string, a: nat, n: nat, provider: seq<Outcome>)
    ensures var run := Attempts(text, a, n, provider);
      run.result.Returned? ==> Strip(run.result.text) == run.result.text
    decreases n - a
  {
    if a < n {
      if Retried(text, a, n, provider) {
        AttemptsStripped(text, a + 1, n, provider);
      } else if OutcomeAt(provider, a).Ok? {
        StripIdempotent(OutcomeAt(provider, a).content);
      }
    }
  }

  /** An output accepted before the last attempt passed the untranslated test. */
  lemma {:induction false} AttemptsAcceptedEarly(text: string, a: nat, n: nat, provider: seq<Outcome>)
    ensures var run := Attempts(text, a, n, provider);
      run.result.Returned? && a + run.calls < n ==> !LooksUntranslated(text, run.result.text)
    decreases n - a
  {
    if a < n && Retried(text, a, n, provider) {
      AttemptsAcceptedEarly(text, a + 1, n, provider);
    }
  }

  /** An output accepted at the last attempt is that attempt's stripped reply, whatever it looks like. */
  lemma {:induction false} AttemptsAcceptedLast(text: string, a: nat, n: nat, provider: seq<Outcome>)
    ensures var run := Attempts(text, a, n, provider);
      run.result.Returned? && a + run.calls == n ==>
        OutcomeAt(provider, n - 1).Ok? && run.result.text == Strip(OutcomeAt(provider, n - 1).content)
    decreases n - a
  {
    if a < n {
      var run := Attempts(text, a, n, provider);
      if Retried(text, a, n, provider) {
        var rest := Attempts(text, a + 1, n, provider);
        assert run.result == rest.result && run.calls == rest.calls + 1;
        AttemptsAcceptedLast(text, a + 1, n, provider);
      } else if OutcomeAt(provider, a).Ok? {
        assert run == Run(Returned(Strip(OutcomeAt(provider, a).content)), 1, []);
      }
    }
  }

  /** An exception escapes only from the last attempt, and only when that attempt failed. */
  lemma {:induction false} AttemptsRaised(text: string, a: nat, n: nat, provider: seq<Outcome>)
    ensures var run := Attempts(text, a, n, provider);
      run.result == Raised ==> a + run.calls == n && OutcomeAt(provider, n - 1).Fail?
    decreases n - a
  {
    if a < n && Retried(text, a, n, provider) {
      AttemptsRaised(text, a + 1, n, provider);
    }
  }

  /**
   * For a text with content: at most `maxRetries` requests, `None` exactly when `maxRetries`
   * is 0, a stripped result, and an exception only when the last of the `maxRetries` requests failed.
   */
  lemma TranslateTextFacts(text: string, maxRetries: nat, provider: seq<Outcome>)
    requires !IsBlank(text)
    ensures var run := TranslateTextSpec(text, maxRetries, provider);
      && run.calls <= maxRetries
      && (run.result == NoResult <==> maxRetries == 0)
      && (run.result.Returned? ==> Strip(run.result.text) == run.result.text)
      && (run.result == Raised ==> run.calls == maxRetries && OutcomeAt(provider, maxRetries - 1).Fail?)
  {
    AttemptsBounded(text, 0, maxRetries, provider);
    AttemptsStripped(text, 0, maxRetries, provider);
    AttemptsRaised(text, 0, maxRetries, provider);
  }

  /** What the per-item task of `translate_batch` produces: the translation, or the original text when it raised. */
  function TaskValue(text: string, run: Run): Option<string>
  {
    match run.result
    case Returned(out) => Some(out)
    case Raised => Some(text)
    case NoResult => None
  }

  /** The provider outcomes seen by item `i`'s task. */
  function ProviderFor(providers: seq<seq<Outcome>>, i: nat): seq<Outcome>
  {
    if i < |providers| then providers[i] else []
  }

  /** The value item `i` of a batch settles on. */
  function ItemValue(texts: seq<string>, maxRetries: nat, providers: seq<seq<Outcome>>, i: nat): Option<string>
    requires i < |texts|
  {
    TaskValue(texts[i], TranslateTextSpec(texts[i], maxRetries, ProviderFor(providers, i)))
  }

  /** `as_completed` hands back every task exactly once, in some order. */
  predicate IsCompletionOrder(order: seq<nat>, n: nat)
  {
    && |order| == n
    && (forall k :: 0 <= k < n ==> order[k] < n)
    && (forall k, k' :: 0 <= k < k' < n ==> order[k] != order[k'])
    && (forall ix :: 0 <= ix < n ==> ix in order)
  }

  /** The indices of the recorded results, in recording order. */
  function Keys<V>(results: seq<(nat, V)>): (ks: seq<nat>)
    ensures |ks| == |results| && forall j :: 0 <= j < |results| ==> ks[j] == results[j].0
  {
    seq(|results|, j requires 0 <= j < |results| => results[j].0)
  }

  /**
   * `translate_batch`: the items complete in `order`; each completion is recorded with its
   * index and reported to the progress callback; the records are then put back in index order.
   * A task whose translation raised settles on its original text.
   */
  method TranslateBatch(texts: seq<string>, targetLang: string, maxRetries: nat,
                        providers: seq<seq<Outcome>>, order: seq<nat>)
    returns (out: seq<Option<string>>, progress: seq<(nat, nat)>)
    requires IsCompletionOrder(order, |texts|)
    ensures |out| == |texts|
    ensures forall i :: 0 <= i < |texts| ==> out[i] == ItemValue(texts, maxRetries, providers, i)
    ensures progress == seq(|texts|, k => (k + 1, |texts|))
  {
    var n := |texts|;
    var results: seq<(nat, Option<string>)> := [];
    var completed := 0;
    progress := [];
    for k := 0 to n
      invariant |results| == k && completed == k
      invariant forall j :: 0 <= j < k ==> results[j].0 == order[j]
      invariant forall j :: 0 <= j < k ==> results[j].1 == ItemValue(texts, maxRetries, providers, order[j])
      invariant progress == seq(k, j => (j + 1, n))
    {
      var ix := order[k];
      var r, calls, delays := TranslateText(texts[ix], targetLang, maxRetries, ProviderFor(providers, ix));
      var value := TaskValue(texts[ix], Run(r, calls, delays));
      results := results + [(ix, value)];
      completed := completed + 1;
      progress := progress + [(completed, n)];
    }
    assert Keys(results) == order;
    out := SortByIndex(results, n);
    forall i | 0 <= i < n
      ensures out[i] == ItemValue(texts, maxRetries, providers, i)
    {
      assert i in order;
      var j :| 0 <= j < n && order[j] == i;
      assert results[j].0 == i;
    }
  }

  /**
   * `results.sort(key=index)` followed by dropping the indices. With every index in `0..n-1`
   * recorded exactly once, the record with index `i` lands at position `i`.
   */
  method SortByIndex<V>(results: seq<(nat, V)>, n: nat) returns (out: seq<V>)
    requires forall j :: 0 <= j < |results| ==> results[j].0 < n
    requires forall j, j' :: 0 <= j < j' < |results| ==> results[j].0 != results[j'].0
    requires forall i :: 0 <= i < n ==> i in Keys(results)
    ensures |out| == n
    ensures forall j :: 0 <= j < |results| ==> out[results[j].0] == results[j].1
  {
    out := [];
    for i := 0 to n
      invariant |out| == i
      invariant forall j :: 0 <= j < |results| && results[j].0 < i ==> out[results[j].0] == results[j].1
    {
      assert i in Keys(results);
      var j :| 0 <= j < |results| && results[j].0 == i;
      out := out + [results[j].1];
    }
  }

  /** The lines `chunk_text` walks: blank-line breaks become a `<PARAGRAPH>` marker line. */
  function Sentences(text: string): seq<string>
  {
    Split(Replace(text, "\n\n", "\n<PARAGRAPH>\n"), '\n')
  }

  /** The state of `chunk_text`'s loop: the chunks so far and the buffer. */
  datatype ChunkState = ChunkState(chunks: seq<string>, buf: string)

  function ChunkStep(st: ChunkState, s: string, maxChars: int): ChunkState
  {
    if s == "<PARAGRAPH>" then
      if st.buf != [] then ChunkState(st.chunks + [Strip(st.buf)], []) else st
    else if |st.buf| + |s| + 1 > maxChars then
      if st.buf != [] then ChunkState(st.chunks + [Strip(st.buf)], s + "\n")
      else ChunkState(st.chunks + [s], st.buf)
    else ChunkState(st.chunks, st.buf + s + "\n")
  }

  /** The loop state after the sentences `ss`. */
  function ChunkFold(ss: seq<string>, maxChars: int): ChunkState
  {
    if ss == [] then ChunkState([], [])
    else ChunkStep(ChunkFold(ss[..|ss| - 1], maxChars), ss[|ss| - 1], maxChars)
  }

  function ChunkTextSpec(text: string, maxChars: int): seq<string>
  {
    if |text| <= maxChars then [text]
    else
      var st := ChunkFold(Sentences(text), maxChars);
      if st.buf != [] then st.chunks + [Strip(st.buf)] else st.chunks
  }

  /** `chunk_text`: the buffer-based splitter. */
  method ChunkText(text: string, maxChars: int) returns (chunks: seq<string>)
    ensures chunks == ChunkTextSpec(text, maxChars)
    ensures |text| <= maxChars ==> chunks == [text]
  {
    if |text| <= maxChars {
      return [text];
    }
    var buf := "";
    chunks := [];
    var sentences := Sentences(text);
    for i := 0 to |sentences|
      invariant ChunkState(chunks, buf) == ChunkFold(sentences[..i], maxChars)
    {
      assert sentences[..i + 1][..i] == sentences[..i];
      var s := sentences[i];
      if s == "<PARAGRAPH>" {
        if buf != "" {
          chunks := chunks + [Strip(buf)];
          buf := "";
        }
      } else if |buf| + |s| + 1 > maxChars {
        if buf != "" {
          chunks := chunks + [Strip(buf)];
          buf := s + "\n";
        } else {
          chunks := chunks + [s];
        }
      } else {
        buf := buf + s + "\n";
      }
    }
    assert sentences[..|sentences|] == sentences;
    if buf != "" {
      chunks := chunks + [Strip(buf)];
    }
  }

  /** Every line other than a paragraph marker is shorter than `maxChars`. */
  predicate LinesShorter(ss: seq<string>, maxChars: int)
  {
    forall k :: 0 <= k < |ss| ==> ss[k] == "<PARAGRAPH>" || |ss[k]| < maxChars
  }

  lemma {:induction false} ChunkFoldBounded(ss: seq<string>, maxChars: int)
    requires LinesShorter(ss, maxChars)
    ensures var st := ChunkFold(ss, maxChars);
      (st.buf == [] || |st.buf| <= maxChars) && forall c :: c in st.chunks ==> |c| <= maxChars
  {
    if ss != [] {
      var init := ss[..|ss| - 1];
      assert LinesShorter(init, maxChars) by {
        forall k | 0 <= k < |init| ensures init[k] == "<PARAGRAPH>" || |init[k]| < maxChars {
          assert init[k] == ss[k];
        }
      }
      ChunkFoldBounded(init, maxChars);
      var st := ChunkFold(init, maxChars);
      StripShape(st.buf);
    }
  }

  /**
   * When the text is longer than `maxChars` but every one of its lines is shorter, no chunk
   * is longer than `maxChars`.
   */
  lemma ChunksWithinLimit(text: string, maxChars: int)
    requires LinesShorter(Sentences(text), maxChars)
    ensures forall c :: c in ChunkTextSpec(text, maxChars) ==> |c| <= maxChars
  {
    if |text| > maxChars {
      ChunkFoldBounded(Sentences(text), maxChars);
      var st := ChunkFold(Sentences(text), maxChars);
      StripShape(st.buf);
    }
  }
}
