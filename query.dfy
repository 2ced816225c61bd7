/** `answer_question` in backend/app/query.py: the search matches become display sources
    and flattened context chunks, the answer comes from `generate_answer`, and every
    exception becomes a failed result. Embedding and vector search are one parameter, the
    outcome of retrieval; the language model is another. */
module Query {
  import opened Wrappers
  import opened Text
  import opened AnswerPrompt

  /** The `metadata` dictionary of a search match; a missing key is `None`. */
  datatype MatchMetadata = MatchMetadata(text: Option<string>, page: Option<Field>, filename: Option<Field>, chunkIndex: Option<Field>)

  /** One search match: its similarity score and, when stored, its metadata. */
  datatype Match = Match(score: real, metadata: Option<MatchMetadata>)

  /** One element of `sources` as shown to the user. */
  datatype DisplaySource = DisplaySource(text: string, score: real, page: Field, filename: Field)

  /** The dictionary returned by `answer_question`. */
  datatype AnswerResult = AnswerResult(success: bool, question: string, answer: string, sources: seq<DisplaySource>)

  const NoMatchAnswer := "I couldn't find any relevant information in the uploaded documents."
  const ErrorPrefix := "An error occurred while processing your question: "
  /** `str(KeyError('metadata'))`, raised by `match['metadata']` on a match without it. */
  const MissingMetadata := "'metadata'"
  const DisplayLength := 200

  /** `round(x, 3)` on an exact value: the nearest multiple of 1/1000, and on an exact tie
      the one with an even numerator. */
  function Round3(x: real): (r: real)
    ensures -0.0005 <= r - x <= 0.0005
    ensures (r * 1000.0).Floor as real == r * 1000.0
    ensures (x * 1000.0) - (x * 1000.0).Floor as real == 0.5 ==> (r * 1000.0).Floor % 2 == 0
  {
    var scaled := x * 1000.0;
    var n := scaled.Floor;
    var fraction := scaled - n as real;
    var m := if fraction < 0.5 then n
      else if fraction > 0.5 then n + 1
      else if n % 2 == 0 then n
      else n + 1;
    assert m as real / 1000.0 * 1000.0 == m as real;
    m as real / 1000.0
  }

  /** `text[:200] + '...'`: the first 200 characters (all of a shorter text) and an
      ellipsis. */
  function DisplayText(text: string): (shown: string)
    ensures |shown| == Min(DisplayLength, |text|) + 3 && |shown| <= DisplayLength + 3
    ensures shown[..|shown| - 3] == text[..|shown| - 3]
    ensures shown[|shown| - 3..] == "..."
  {
    text[..Min(DisplayLength, |text|)] + "..."
  }

  function TextOf(md: MatchMetadata): string {
    md.text.GetOr("")
  }

  /** The display source of a match that has metadata. */
  function DisplaySourceOf(m: Match): DisplaySource
    requires m.metadata.Some?
  {
    var md := m.metadata.value;
    DisplaySource(DisplayText(TextOf(md)), Round3(m.score), md.page.GetOr(Str("N/A")), md.filename.GetOr(Str("N/A")))
  }

  /** The flattened context chunk of a match that has metadata. It has no `metadata` key of
      its own; its filename is not modelled, as `generate_answer` never reads it. */
  function ContextChunkOf(m: Match): ContextChunk
    requires m.metadata.Some?
  {
    var md := m.metadata.value;
    ContextChunk(TextOf(md), Some(md.page.GetOr(Str("N/A"))), Some(md.chunkIndex.GetOr(Num(0))), None)
  }

  predicate AllHaveMetadata(matches: seq<Match>) {
    forall i :: 0 <= i < |matches| ==> matches[i].metadata.Some?
  }

  /** The `sources` list of the answer: the display source at position `i` is built from
      the match at position `i`. */
  function DisplaySources(matches: seq<Match>): (sources: seq<DisplaySource>)
    requires AllHaveMetadata(matches)
    ensures |sources| == |matches|
    ensures forall i :: 0 <= i < |matches| ==> sources[i] == DisplaySourceOf(matches[i])
  {
    if matches == [] then []
    else
      var init := matches[..|matches| - 1];
      assert forall j :: 0 <= j < |init| ==> init[j] == matches[j];
      DisplaySources(init) + [DisplaySourceOf(matches[|matches| - 1])]
  }

  /** The `context_chunks` handed to `generate_answer`: the chunk at position `i` is built
      from the match at position `i`. */
  function ContextChunks(matches: seq<Match>): (chunks: seq<ContextChunk>)
    requires AllHaveMetadata(matches)
    ensures |chunks| == |matches|
    ensures forall i :: 0 <= i < |matches| ==> chunks[i] == ContextChunkOf(matches[i])
  {
    if matches == [] then []
    else
      var init := matches[..|matches| - 1];
      assert forall j :: 0 <= j < |init| ==> init[j] == matches[j];
      ContextChunks(init) + [ContextChunkOf(matches[|matches| - 1])]
  }

  function ErrorResult(question: string, error: string): AnswerResult {
    AnswerResult(false, question, ErrorPrefix + error, [])
  }

  /** `answer_question`. `retrieval` is the outcome of embedding the question and searching
      the index: the matches, or the message of the exception raised. `generated` is the
      list of context chunks handed to `generate_answer`, or `None` when it is not called. */
  method AnswerQuestion(question: string, retrieval: Result<seq<Match>, string>, model: string -> Result<string, string>)
    returns (result: AnswerResult, generated: Option<seq<ContextChunk>>)
    ensures retrieval.Failure? ==> result == ErrorResult(question, retrieval.error) && generated == None
    ensures retrieval == Success([]) ==> result == AnswerResult(true, question, NoMatchAnswer, []) && generated == None
    ensures retrieval.Success? && retrieval.value != [] && !AllHaveMetadata(retrieval.value) ==>
      result == ErrorResult(question, MissingMetadata) && generated == None
    ensures retrieval.Success? && retrieval.value != [] && AllHaveMetadata(retrieval.value) ==>
      && generated == Some(ContextChunks(retrieval.value))
      && result == AnswerResult(true, question, GenerateAnswer(question, ContextChunks(retrieval.value), model),
                                DisplaySources(retrieval.value))
  {
    if retrieval.Failure? {
      return ErrorResult(question, retrieval.error), None;
    }
    var matches := retrieval.value;
    if |matches| == 0 {
      return AnswerResult(true, question, NoMatchAnswer, []), None;
    }
    var sources := [];
    var contextChunks := [];
    for i := 0 to |matches|
      invariant AllHaveMetadata(matches[..i])
      invariant sources == DisplaySources(matches[..i])
      invariant contextChunks == ContextChunks(matches[..i])
    {
      if matches[i].metadata.None? {
        return ErrorResult(question, MissingMetadata), None;
      }
      var metadata := matches[i].metadata.value;
      var text := metadata.text.GetOr("");
      var source := DisplaySource(text[..Min(DisplayLength, |text|)] + "...", Round3(matches[i].score),
                                  metadata.page.GetOr(Str("N/A")), metadata.filename.GetOr(Str("N/A")));
      sources := sources + [source];
      var contextChunk := ContextChunk(text, Some(metadata.page.GetOr(Str("N/A"))), Some(metadata.chunkIndex.GetOr(Num(0))), None);
      contextChunks := contextChunks + [contextChunk];
      assert matches[..i + 1][..i] == matches[..i];
    }
    assert matches[..|matches|] == matches;
    var answer := GenerateAnswer(question, contextChunks, model);
    return AnswerResult(true, question, answer, sources), Some(contextChunks);
  }

  // ---------------------------------------------------------------------------
  // Properties

  /** One display source and one context chunk per match, in match order: the display text
      is the start of the context chunk's full text followed by "...", the page defaults to
      "N/A" in both, the filename to "N/A" and the chunk index to 0. */
  lemma SourcesFollowMatches(matches: seq<Match>)
    requires AllHaveMetadata(matches)
    ensures |DisplaySources(matches)| == |matches| && |ContextChunks(matches)| == |matches|
    ensures forall i :: 0 <= i < |matches| ==>
      && ContextChunks(matches)[i].text == matches[i].metadata.value.text.GetOr("")
      && ContextChunks(matches)[i].page == Some(matches[i].metadata.value.page.GetOr(Str("N/A")))
      && ContextChunks(matches)[i].chunkIndex == Some(matches[i].metadata.value.chunkIndex.GetOr(Num(0)))
      && ContextChunks(matches)[i].metadata == None
      && DisplaySources(matches)[i].page == matches[i].metadata.value.page.GetOr(Str("N/A"))
      && DisplaySources(matches)[i].filename == matches[i].metadata.value.filename.GetOr(Str("N/A"))
      && DisplaySources(matches)[i].score == Round3(matches[i].score)
      && DisplaySources(matches)[i].text == DisplayText(ContextChunks(matches)[i].text)
  {
  }

  /** A display text is at most 203 characters, ends in "...", and before that is a prefix
      of the full text of the same match's context chunk. */
  lemma DisplayIsPrefixOfContext(matches: seq<Match>, i: int)
    requires AllHaveMetadata(matches) && 0 <= i < |matches|
    ensures |DisplaySources(matches)| == |ContextChunks(matches)| == |matches|
    ensures var shown := DisplaySources(matches)[i].text; var full := ContextChunks(matches)[i].text;
      && 3 <= |shown| <= 203
      && shown[|shown| - 3..] == "..."
      && |shown| - 3 <= |full|
      && shown[..|shown| - 3] == full[..|shown| - 3]
      && (|full| <= DisplayLength ==> shown == full + "...")
  {
    var full := TextOf(matches[i].metadata.value);
    var shown := DisplayText(full);
    assert |full| <= DisplayLength ==> full[..Min(DisplayLength, |full|)] == full;
  }

  /** The context chunks of a query carry no `metadata` key, so each is rendered as a PDF
      block naming its page and chunk index, and the prompt speaks of "PDF documents". */
  lemma QueryChunksArePdf(matches: seq<Match>)
    requires AllHaveMetadata(matches)
    ensures SourceLabel(ContextChunks(matches)) == PdfLabel
    ensures |ContextChunks(matches)| == |matches|
    ensures forall i :: 0 <= i < |matches| ==>
      Block(ContextChunks(matches)[i]) == PdfPrefix + Render(matches[i].metadata.value.page.GetOr(Str("N/A"))) + ", Chunk "
        + Render(matches[i].metadata.value.chunkIndex.GetOr(Num(0))) + ":\n" + TextOf(matches[i].metadata.value)
  {
    assert !HasYoutube(ContextChunks(matches));
  }
}
