/** The prompt construction of `generate_answer` in backend/app/utils.py: the source
    label, the per-chunk context blocks, the prompt text, and the answer or apology that
    comes back. The language model is a parameter. */
module AnswerPrompt {
  import opened Wrappers
  import opened Text

  /** A metadata value that is printed with `str()`: a number or a text such as "N/A". */
  datatype Field = Num(n: int) | Str(s: string)

  function Render(f: Field): string {
    match f
    case Num(n) => IntToString(n)
    case Str(s) => s
  }

  /** The `metadata` dictionary of a context chunk; a missing key is `None`. */
  datatype ChunkMetadata = ChunkMetadata(contentType: Option<string>, videoTitle: Option<string>, timestampStart: Option<int>)

  /** One element of `context_chunks`. */
  datatype ContextChunk = ContextChunk(text: string, page: Option<Field>, chunkIndex: Option<Field>, metadata: Option<ChunkMetadata>)

  /** `chunk.get('metadata', {}).get('content_type') == 'youtube'`. */
  predicate IsYoutube(c: ContextChunk) {
    c.metadata.Some? && c.metadata.value.contentType == Some("youtube")
  }

  predicate HasYoutube(chunks: seq<ContextChunk>) {
    exists i :: 0 <= i < |chunks| && IsYoutube(chunks[i])
  }

  /** Any chunk whose content type is not "youtube", including a missing one. */
  predicate HasPdf(chunks: seq<ContextChunk>) {
    exists i :: 0 <= i < |chunks| && !IsYoutube(chunks[i])
  }

  const MixedLabel := "PDF documents and YouTube videos"
  const YoutubeLabel := "YouTube video transcripts"
  const PdfLabel := "PDF documents"

  /** The description of the sources in the prompt. */
  function SourceLabel(chunks: seq<ContextChunk>): (description: string)
    ensures description == MixedLabel <==> HasYoutube(chunks) && HasPdf(chunks)
    ensures description == YoutubeLabel <==> HasYoutube(chunks) && !HasPdf(chunks)
    ensures description == PdfLabel <==> !HasYoutube(chunks)
  {
    if HasYoutube(chunks) && HasPdf(chunks) then MixedLabel
    else if HasYoutube(chunks) then YoutubeLabel
    else PdfLabel
  }

  /** With no chunks at all the prompt speaks of PDF documents. */
  lemma NoChunksArePdf()
    ensures SourceLabel([]) == PdfLabel
  {
  }

  /** `f"{n:02d}"` for `0 <= n < 60`. */
  function Pad2(n: int): (r: string)
    requires 0 <= n < 60
    ensures |r| == 2 && AllDigits(r) && ParseNat(r) == n
  {
    var d := NatToString(n);
    if n < 10 then
      assert d == [DigitChar(n)];
      var r := "0" + d;
      assert r[..1] == "0" && r[1] == DigitChar(n);
      assert ParseNat("0") == 10 * ParseNat("") + DigitValue('0');
      r
    else
      assert d == NatToString(n / 10) + [DigitChar(n % 10)];
      ParseNatToString(n);
      d
  }

  /** `f"{t // 60}:{t % 60:02d}"`; for a positive divisor Dafny's `/` and `%` agree
      with Python's floor division and modulo. */
  function FormatTimestamp(t: int): string {
    IntToString(t / 60) + ":" + Pad2(t % 60)
  }

  /** A non-negative timestamp is written as minutes, a colon and two digits of seconds,
      and reading them back gives the timestamp. */
  lemma TimestampRoundTrip(t: int)
    requires t >= 0
    ensures var r := FormatTimestamp(t); var k := |IntToString(t / 60)|;
      && |r| == k + 3
      && r[k] == ':'
      && AllDigits(r[..k]) && AllDigits(r[k + 1..])
      && ParseNat(r[..k]) * 60 + ParseNat(r[k + 1..]) == t
  {
    var m := IntToString(t / 60);
    var r := FormatTimestamp(t);
    assert r[..|m|] == m;
    assert r[|m| + 1..] == Pad2(t % 60);
    ParseNatToString(t / 60);
  }

  const YoutubePrefix := "Source: YouTube - '"
  const PdfPrefix := "Source: PDF - Page "

  /** The context block of one chunk: a header naming the video and timestamp, or the
      page and chunk index, then a newline and the chunk's text. */
  function Block(c: ContextChunk): (b: string) {
    if IsYoutube(c) then
      var m := c.metadata.value;
      YoutubePrefix + m.videoTitle.GetOr("Unknown Video") + "' at "
        + FormatTimestamp(m.timestampStart.GetOr(0)) + ":\n" + c.text
    else
      PdfPrefix + Render(c.page.GetOr(Str("N/A"))) + ", Chunk "
        + Render(c.chunkIndex.GetOr(Num(0))) + ":\n" + c.text
  }

  /** Every block opens with the header of its kind and ends with a newline followed by the
      chunk's whole text. */
  lemma BlockLayout(c: ContextChunk)
    ensures var b := Block(c); var h := if IsYoutube(c) then YoutubePrefix else PdfPrefix;
      && |b| >= |h| + 2 + |c.text|
      && b[..|h|] == h
      && b[|b| - |c.text|..] == c.text
      && b[|b| - |c.text| - 1] == '\n'
  {
  }

  /** A PDF block's header names the page, or "N/A" when the chunk has none, right after
      the prefix, then ", Chunk " and the chunk index, or 0 when it has none. */
  lemma PdfBlockNamesPage(c: ContextChunk)
    requires !IsYoutube(c)
    ensures var b := Block(c); var page := Render(c.page.GetOr(Str("N/A")));
      var index := Render(c.chunkIndex.GetOr(Num(0))); var at := |PdfPrefix| + |page|;
      && |b| == at + |", Chunk "| + |index| + 2 + |c.text|
      && b[..|PdfPrefix|] == PdfPrefix
      && b[|PdfPrefix|..at] == page
      && b[at..at + |", Chunk "|] == ", Chunk "
      && b[at + |", Chunk "|..at + |", Chunk "| + |index|] == index
      && (c.page.None? ==> page == "N/A")
      && (c.chunkIndex.None? ==> index == "0")
  {
    var page := Render(c.page.GetOr(Str("N/A")));
    var index := Render(c.chunkIndex.GetOr(Num(0)));
    assert NatToString(0) == "0";
    assert Block(c) == PdfPrefix + page + ", Chunk " + index + ":\n" + c.text;
  }

  /** A YouTube block's header names the video title, or "Unknown Video" when the chunk's
      metadata has none, right after the prefix, then "' at " and the start timestamp as
      minutes and seconds, or 0:00 when there is none, then ":" and the newline. */
  lemma YoutubeBlockNamesVideo(c: ContextChunk)
    requires IsYoutube(c)
    ensures var b := Block(c); var m := c.metadata.value;
      var title := m.videoTitle.GetOr("Unknown Video");
      var stamp := FormatTimestamp(m.timestampStart.GetOr(0));
      var at := |YoutubePrefix| + |title|; var st := at + |"' at "|;
      && |b| == st + |stamp| + 2 + |c.text|
      && b[..|YoutubePrefix|] == YoutubePrefix
      && b[|YoutubePrefix|..at] == title
      && b[at..st] == "' at "
      && b[st..st + |stamp|] == stamp
      && b[st + |stamp|..st + |stamp| + 2] == ":\n"
      && (m.videoTitle.None? ==> title == "Unknown Video")
      && (m.timestampStart.None? ==> stamp == "0:00")
  {
    var m := c.metadata.value;
    var title := m.videoTitle.GetOr("Unknown Video");
    var stamp := FormatTimestamp(m.timestampStart.GetOr(0));
    ZeroTimestamp();
    assert Block(c) == YoutubePrefix + title + "' at " + stamp + ":\n" + c.text;
    PiecesAt(YoutubePrefix, title, "' at ", stamp, ":\n", c.text);
  }

  /** The timestamp of a chunk without one. */
  lemma ZeroTimestamp()
    ensures FormatTimestamp(0) == "0:00"
  {
    assert NatToString(0) == "0";
    assert Pad2(0) == "00";
  }

  /** Where six consecutive pieces sit in their concatenation. */
  lemma PiecesAt<T>(p: seq<T>, x: seq<T>, q: seq<T>, y: seq<T>, e: seq<T>, t: seq<T>)
    ensures var b := p + x + q + y + e + t; var at := |p| + |x|; var st := at + |q|;
      && |b| == st + |y| + |e| + |t|
      && b[..|p|] == p
      && b[|p|..at] == x
      && b[at..st] == q
      && b[st..st + |y|] == y
      && b[st + |y|..st + |y| + |e|] == e
      && b[st + |y| + |e|..] == t
  {
  }

  /** A number printed in a header reads back as the same number. */
  lemma RenderedNumberRoundTrip(n: int)
    ensures var r := Render(Num(n)); r != [] && AllDigits(if r[0] == '-' then r[1..] else r)
    ensures ParseInt(Render(Num(n))) == n
  {
    IntToStringRoundTrip(n);
  }

  function Blocks(chunks: seq<ContextChunk>): (bs: seq<string>)
    ensures |bs| == |chunks|
    ensures forall i :: 0 <= i < |chunks| ==> bs[i] == Block(chunks[i])
  {
    seq(|chunks|, i requires 0 <= i < |chunks| => Block(chunks[i]))
  }

  /** The context: the blocks in the chunks' order, separated by a blank line. */
  function Context(chunks: seq<ContextChunk>): string {
    Join("\n\n", Blocks(chunks))
  }

  /** The first block of a non-empty context opens it. */
  lemma ContextOpensWithFirstBlock(chunks: seq<ContextChunk>)
    requires chunks != []
    ensures |Context(chunks)| >= |Block(chunks[0])|
    ensures Context(chunks)[..|Block(chunks[0])|] == Block(chunks[0])
  {
    JoinStartsWithFirst("\n\n", Blocks(chunks));
  }

  /** Block `i` (`Blocks(chunks)[i]`, which is `Block(chunks[i])`) sits in the context at
      its offset, right after a blank line unless it is the first, and the last block ends
      the context. */
  lemma ContextPlacesBlocks(chunks: seq<ContextChunk>, i: nat)
    requires i < |chunks|
    ensures var c := Context(chunks); var bs := Blocks(chunks); var o := JoinOffset("\n\n", bs, i);
      && o + |bs[i]| <= |c|
      && c[o..o + |bs[i]|] == bs[i]
      && (i > 0 ==> 2 <= o && c[o - 2..o] == "\n\n")
      && (i == |chunks| - 1 ==> |c| == o + |bs[i]|)
  {
    JoinPlaces("\n\n", Blocks(chunks), i);
  }

  const PromptHead := "You are a helpful assistant that answers questions based on provided content.\n\nContext from "

  const Instructions := "\n\nInstructions:\n"
    + "- Answer the question based ONLY on the context provided above\n"
    + "- If the answer is not in the context, say \"I couldn't find that information in the provided content.\"\n"
    + "- Be concise and specific\n"
    + "- When referencing sources, mention whether it's from a PDF (with page number) or YouTube video (with timestamp)\n"
    + "- Synthesize information from multiple sources if relevant\n\n"

  const AnswerCue := "Answer:"

  /** The prompt sent to the model. */
  function Prompt(question: string, chunks: seq<ContextChunk>): string {
    Assemble(PromptHead, SourceLabel(chunks), Context(chunks), question, Instructions + AnswerCue)
  }

  /** The prompt's pieces in order: the header, the source description, a colon and the
      context, the question, and the closing instructions. */
  function Assemble(head: string, source: string, context: string, question: string, tail: string): string {
    head + source + (":\n" + context) + ("\n\nQuestion: " + question) + tail
  }

  /** Where the header, the source description, the colon, the context, the question and
      the closing text sit in an assembled prompt: one after the other, with nothing left
      out and nothing in between. */
  lemma AssembleLayout(head: string, source: string, context: string, question: string, tail: string)
    ensures var p := Assemble(head, source, context, question, tail); var q := "\n\nQuestion: " + question;
      var at := |head| + |source|; var cs := at + 2; var qs := cs + |context|;
      && |p| == qs + |q| + |tail|
      && p[..|head|] == head
      && p[|head|..at] == source
      && p[at..cs] == ":\n"
      && p[cs..qs] == context
      && p[qs..qs + |q|] == q
      && p[qs + |q|..] == tail
  {
    var q := "\n\nQuestion: " + question;
    assert Assemble(head, source, context, question, tail) == head + source + ":\n" + context + q + tail;
    PiecesAt(head, source, ":\n", context, q, tail);
  }

  /** The prompt opens with the fixed header and the source label, then a colon, a newline
      and the whole context, then the question, and ends with the fixed instructions and
      "Answer:". */
  lemma PromptLayout(question: string, chunks: seq<ContextChunk>)
    ensures var p := Prompt(question, chunks); var source := SourceLabel(chunks);
      var q := "\n\nQuestion: " + question; var tail := Instructions + AnswerCue;
      var at := |PromptHead| + |source|; var cs := at + 2; var qs := cs + |Context(chunks)|;
      && |p| == qs + |q| + |tail|
      && p[..|PromptHead|] == PromptHead
      && p[|PromptHead|..at] == source
      && p[at..cs] == ":\n"
      && p[cs..qs] == Context(chunks)
      && p[qs..qs + |q|] == q
      && p[qs + |q|..] == tail
  {
    AssembleLayout(PromptHead, SourceLabel(chunks), Context(chunks), question, Instructions + AnswerCue);
  }

  const ApologyPrefix := "Sorry, I encountered an error generating the answer: "

  /** `generate_answer`: the model's reply to the prompt, or an apology carrying the
      error's message when the model call raises. */
  function GenerateAnswer(question: string, chunks: seq<ContextChunk>, model: string -> Result<string, string>): (answer: string)
    ensures model(Prompt(question, chunks)).Success? ==> answer == model(Prompt(question, chunks)).value
    ensures model(Prompt(question, chunks)).Failure? ==>
      |answer| >= |ApologyPrefix| && answer[..|ApologyPrefix|] == ApologyPrefix
      && answer[|ApologyPrefix|..] == model(Prompt(question, chunks)).error
  {
    match model(Prompt(question, chunks))
    case Success(reply) => reply
    case Failure(e) => ApologyPrefix + e
  }

  predicate StartsWithApology(answer: string) {
    |answer| >= |ApologyPrefix| && answer[..|ApologyPrefix|] == ApologyPrefix
  }

  /** When no reply of the model opens like the apology, the answer opens with the apology
      exactly when the model call failed, and then the rest is the error's message; a
      successful reply comes back unchanged. */
  lemma ApologyMarksFailure(question: string, chunks: seq<ContextChunk>, model: string -> Result<string, string>)
    requires forall p :: model(p).Success? ==> !StartsWithApology(model(p).value)
    ensures StartsWithApology(GenerateAnswer(question, chunks, model)) <==> model(Prompt(question, chunks)).Failure?
    ensures model(Prompt(question, chunks)).Failure? ==>
      GenerateAnswer(question, chunks, model)[|ApologyPrefix|..] == model(Prompt(question, chunks)).error
    ensures model(Prompt(question, chunks)).Success? ==>
      GenerateAnswer(question, chunks, model) == model(Prompt(question, chunks)).value
  {
    var reply := model(Prompt(question, chunks));
    if reply.Success? {
      assert !StartsWithApology(reply.value);
    }
  }
}
