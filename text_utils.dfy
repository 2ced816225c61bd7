/** The text helpers of backend/app/utils.py: `clean_text`, `is_text_meaningful`, the
    sentence split and the greedy, overlapping page chunker `chunk_text`. */
module TextUtils {
  import opened Wrappers
  import opened Text

  // ---------------------------------------------------------------------------
  // clean_text

  /** `\w`, for ASCII text: letters, digits and the underscore. */
  predicate IsWordChar(c: char) {
    IsAsciiLetter(c) || IsDigit(c) || c == '_'
  }

  /** The punctuation `clean_text` keeps besides word characters and whitespace. */
  predicate IsKeptPunctuation(c: char) {
    c in ".,!?;:-()[]{}\"'/"
  }

  /** What the class `[\w\s\.\,\!\?\;\:\-\(\)\[\]\{\}\"\'\/]` matches. */
  predicate IsKept(c: char) {
    IsWordChar(c) || IsSpace(c) || IsKeptPunctuation(c)
  }

  /** A character that survives `clean_text` and is not whitespace. */
  predicate IsVisible(c: char) {
    IsWordChar(c) || IsKeptPunctuation(c)
  }

  predicate IsNonSpace(c: char) {
    !IsSpace(c)
  }

  /** `re.sub(r'\s+', ' ', s)`; `inRun` says whether the character before `s` was
      part of a whitespace run that has already been replaced. The result opens with a
      space exactly when `s` opens a new whitespace run, ends with one exactly when `s`
      ends in whitespace, and is empty only for a text of whitespace that continues a run.
      What it keeps in between is stated by `CollapseWhitespaceSpec`. */
  function CollapseWhitespace(s: string, inRun: bool): (r: string)
    ensures |r| <= |s|
    ensures forall c :: c in r && IsSpace(c) ==> c == ' '
    ensures forall c :: c in r ==> c == ' ' || c in s
    ensures r != [] && r[0] == ' ' <==> s != [] && IsSpace(s[0]) && !inRun
    ensures r != [] ==> (r[|r| - 1] == ' ' <==> IsSpace(s[|s| - 1]))
    ensures r == [] <==> s == [] || (inRun && forall i :: 0 <= i < |s| ==> IsSpace(s[i]))
  {
    if s == [] then []
    else if IsSpace(s[0]) then (if inRun then [] else [' ']) + CollapseWhitespace(s[1..], true)
    else [s[0]] + CollapseWhitespace(s[1..], false)
  }

  /** Collapsing keeps the non-whitespace characters in order, keeps the words of
      `split()` (so every whitespace run between two words leaves a space), and leaves no
      two spaces side by side. */
  lemma {:induction false} CollapseWhitespaceSpec(s: string, inRun: bool)
    ensures var r := CollapseWhitespace(s, inRun);
      && Filter(r, IsNonSpace) == Filter(s, IsNonSpace)
      && Words(r) == Words(s)
      && forall i :: 0 <= i < |r| - 1 ==> !(r[i] == ' ' && r[i + 1] == ' ')
  {
    CollapseKeepsWords(s, inRun);
    if s != [] {
      var inner := IsSpace(s[0]);
      CollapseWhitespaceSpec(s[1..], inner);
      var head := if inner then (if inRun then [] else [' ']) else [s[0]];
      var rest := CollapseWhitespace(s[1..], inner);
      assert CollapseWhitespace(s, inRun) == head + rest;
      FilterConcat(head, rest, IsNonSpace);
    }
  }

  /** Collapsing keeps the words of `split()`: each whitespace run between two words
      still separates them, so no two words are glued together and none is cut. */
  lemma {:induction false} CollapseKeepsWords(s: string, inRun: bool)
    ensures Words(CollapseWhitespace(s, inRun)) == Words(s)
    decreases |s|
  {
    if s == [] {
    } else if IsSpace(s[0]) {
      CollapseKeepsWords(s[1..], true);
      CollapseSkipsSpace(s, inRun);
    } else {
      var n := WordEnd(s);
      CollapseKeepsWords(s[n..], false);
      CollapseKeepsWord(s, inRun);
    }
  }

  /** The step of `CollapseKeepsWords` for a leading whitespace character. */
  lemma CollapseSkipsSpace(s: string, inRun: bool)
    requires s != [] && IsSpace(s[0])
    requires Words(CollapseWhitespace(s[1..], true)) == Words(s[1..])
    ensures Words(CollapseWhitespace(s, inRun)) == Words(s)
  {
    var rest := CollapseWhitespace(s[1..], true);
    WordsSkipSpace(s);
    if inRun {
      assert CollapseWhitespace(s, inRun) == [] + rest;
      assert [] + rest == rest;
    } else {
      var r := [' '] + rest;
      assert CollapseWhitespace(s, inRun) == r;
      assert r[1..] == rest;
      WordsSkipSpace(r);
    }
  }

  /** The step of `CollapseKeepsWords` for a leading word, which collapsing keeps whole. */
  lemma CollapseKeepsWord(s: string, inRun: bool)
    requires s != [] && !IsSpace(s[0])
    requires Words(CollapseWhitespace(s[WordEnd(s)..], false)) == Words(s[WordEnd(s)..])
    ensures Words(CollapseWhitespace(s, inRun)) == Words(s)
  {
    var n := WordEnd(s);
    var w := s[..n];
    var t := s[n..];
    SplitAtWord(s);
    CollapseConcat(w, t, inRun);
    CollapseWord(w, inRun);
    WordsOfWordThen(w, t);
    WordsOfWordThen(w, CollapseWhitespace(t, false));
  }

  /** A word has no whitespace to collapse. */
  lemma {:induction false} CollapseWord(w: string, inRun: bool)
    requires forall i :: 0 <= i < |w| ==> !IsSpace(w[i])
    ensures CollapseWhitespace(w, inRun) == w
  {
    if w != [] {
      CollapseWord(w[1..], false);
      assert w == [w[0]] + w[1..];
    }
  }

  /** Whether a whitespace run is open after `a`, read with the state `inRun`. */
  function EndsInRun(a: string, inRun: bool): bool {
    if a == [] then inRun else IsSpace(a[|a| - 1])
  }

  /** Collapsing a text piece by piece, each piece continuing the run the previous one
      left open, gives the same result as collapsing it at once: each whitespace run
      becomes one space wherever the text is cut. */
  lemma {:induction false} CollapseConcat(a: string, b: string, inRun: bool)
    ensures CollapseWhitespace(a + b, inRun) == CollapseWhitespace(a, inRun) + CollapseWhitespace(b, EndsInRun(a, inRun))
  {
    if a == [] {
      assert a + b == b;
    } else {
      var inner := IsSpace(a[0]);
      var head := if inner then (if inRun then [] else [' ']) else [a[0]];
      assert (a + b)[0] == a[0];
      assert (a + b)[1..] == a[1..] + b;
      assert CollapseWhitespace(a + b, inRun) == head + CollapseWhitespace(a[1..] + b, inner);
      assert CollapseWhitespace(a, inRun) == head + CollapseWhitespace(a[1..], inner);
      CollapseConcat(a[1..], b, inner);
      if a[1..] != [] {
        assert a[1..][|a[1..]| - 1] == a[|a| - 1];
      }
      assert EndsInRun(a[1..], inner) == EndsInRun(a, inRun);
      ConcatAssoc(head, CollapseWhitespace(a[1..], inner), CollapseWhitespace(b, EndsInRun(a, inRun)));
    }
  }

  /** `re.sub(r'[^\w\s...]', '', s)`: keeps exactly the characters of the class above, in
      order, each as often as it occurs. */
  function RemoveSpecial(s: string): (r: string)
    ensures |r| <= |s|
    ensures forall c :: c in r ==> c in s && IsKept(c)
    ensures forall c :: IsKept(c) ==> multiset(r)[c] == multiset(s)[c]
  {
    FilterCounts(s, IsKept);
    Filter(s, IsKept)
  }

  /** The words of a text after `RemoveSpecial`: each word without the characters outside
      the class, and no word where nothing of it was kept. */
  function KeptWords(ws: seq<string>): seq<string> {
    if ws == [] then []
    else
      var k := Filter(ws[0], IsKept);
      (if k == [] then [] else [k]) + KeptWords(ws[1..])
  }

  /** Removing the special characters never glues two words together, as it keeps all
      whitespace: the words of the result are the input's words with the special characters
      removed, and a word made only of them disappears. */
  lemma {:induction false} RemoveSpecialWords(s: string)
    ensures Words(RemoveSpecial(s)) == KeptWords(Words(s))
    decreases |s|
  {
    if s == [] {
    } else if IsSpace(s[0]) {
      RemoveSpecialWords(s[1..]);
      RemoveSpecialSkipsSpace(s);
    } else {
      RemoveSpecialWords(s[WordEnd(s)..]);
      RemoveSpecialWord(s);
    }
  }

  /** The step of `RemoveSpecialWords` for a leading whitespace character. */
  lemma RemoveSpecialSkipsSpace(s: string)
    requires s != [] && IsSpace(s[0])
    requires Words(RemoveSpecial(s[1..])) == KeptWords(Words(s[1..]))
    ensures Words(RemoveSpecial(s)) == KeptWords(Words(s))
  {
    var r := Filter(s, IsKept);
    assert r == [s[0]] + Filter(s[1..], IsKept);
    assert r[1..] == Filter(s[1..], IsKept);
    WordsSkipSpace(r);
    WordsSkipSpace(s);
  }

  /** The step of `RemoveSpecialWords` for a leading word. */
  lemma RemoveSpecialWord(s: string)
    requires s != [] && !IsSpace(s[0])
    requires Words(RemoveSpecial(s[WordEnd(s)..])) == KeptWords(Words(s[WordEnd(s)..]))
    ensures Words(RemoveSpecial(s)) == KeptWords(Words(s))
  {
    var n := WordEnd(s);
    var w := s[..n];
    var t := s[n..];
    SplitAtWord(s);
    WordsOfWordThen(w, t);
    KeptWordsCons(w, Words(t));
    FilteredWordThen(w, t);
  }

  lemma KeptWordsCons(w: string, ws: seq<string>)
    ensures var k := Filter(w, IsKept);
      KeptWords([w] + ws) == (if k == [] then [] else [k]) + KeptWords(ws)
  {
    assert ([w] + ws)[1..] == ws;
  }

  /** A word filtered by `RemoveSpecial` is a word of the result, unless nothing of it is
      kept. */
  lemma FilteredWordThen(w: string, t: string)
    requires IsWord(w) && (t == [] || IsSpace(t[0]))
    ensures var k := Filter(w, IsKept);
      Words(Filter(w + t, IsKept)) == (if k == [] then [] else [k]) + Words(Filter(t, IsKept))
  {
    FilterConcat(w, t, IsKept);
    var k := Filter(w, IsKept);
    var ft := Filter(t, IsKept);
    if t != [] {
      assert ft == [t[0]] + Filter(t[1..], IsKept);
    }
    if k == [] {
      assert k + ft == ft;
    } else {
      FilterOfWord(w, IsKept);
      WordsOfWordThen(k, ft);
    }
  }

  /** `split()` of the cleaned text: the input's words with the characters outside the
      class removed; a word made only of such characters is gone. Cleaning never glues two
      words together and never cuts one. */
  lemma CleanKeepsWords(text: string)
    ensures Words(Strip(RemoveSpecial(CollapseWhitespace(text, false)))) == KeptWords(Words(text))
  {
    var collapsed := CollapseWhitespace(text, false);
    WordsStrip(RemoveSpecial(collapsed));
    RemoveSpecialWords(collapsed);
    CollapseKeepsWords(text, false);
  }

  /** `clean_text`: whitespace runs become one space, characters outside the class are
      dropped, and the ends are stripped. The result is made of word characters, plain
      spaces and the kept punctuation only, has no whitespace at either end, is no longer
      than the input, and keeps every word character and kept punctuation mark of the
      input in order. */
  function CleanText(text: string): (r: string)
    ensures |r| <= |text|
    ensures forall c :: c in r ==> IsWordChar(c) || c == ' ' || IsKeptPunctuation(c)
    ensures forall c :: c in r && IsSpace(c) ==> c == ' '
    ensures r != [] ==> r[0] != ' ' && r[|r| - 1] != ' '
    ensures Filter(r, IsVisible) == Filter(text, IsVisible)
    ensures Words(r) == KeptWords(Words(text))
  {
    var collapsed := CollapseWhitespace(text, false);
    var kept := RemoveSpecial(collapsed);
    var r := Strip(kept);
    StripSpec(kept);
    StripKeepsCharacters(kept);
    CleanKeepsVisible(text);
    CleanKeepsWords(text);
    r
  }

  /** The cleaning steps keep every word character and kept punctuation mark in order. */
  lemma CleanKeepsVisible(text: string)
    ensures Filter(Strip(RemoveSpecial(CollapseWhitespace(text, false))), IsVisible) == Filter(text, IsVisible)
  {
    var collapsed := CollapseWhitespace(text, false);
    var kept := RemoveSpecial(collapsed);
    assert kept == Filter(collapsed, IsKept);
    VisibleIsKept();
    CollapseWhitespaceSpec(text, false);
    StripFilter(kept, IsVisible);
    FilterOfFiltered(collapsed, IsVisible, IsKept);
    FilterOfFiltered(collapsed, IsVisible, IsNonSpace);
    FilterOfFiltered(text, IsVisible, IsNonSpace);
  }

  lemma VisibleIsKept()
    ensures forall c :: IsVisible(c) ==> IsNonSpace(c) && IsKept(c)
  {
  }

  /** Every character of `s.strip()` is a character of `s`. */
  lemma StripKeepsCharacters(s: string)
    ensures forall c :: c in Strip(s) ==> c in s
  {
    var r := Strip(s);
    StripSpec(s);
    forall c | c in r ensures c in s {
      var i :| 0 <= i < |r| && r[i] == c;
      assert s[StripOffset(s) + i] == c;
    }
  }

  /** `strip()` loses no character that is not whitespace. */
  lemma StripFilter(s: string, keep: char -> bool)
    requires forall c :: keep(c) ==> !IsSpace(c)
    ensures Filter(Strip(s), keep) == Filter(s, keep)
  {
    StripStartSpec(s);
    var t := StripStart(s);
    StripEndSpec(t);
    var r := StripEnd(t);
    var o := |s| - |t|;
    assert s == s[..o] + t;
    assert t == r + t[|r|..];
    FilterConcat(s[..o], t, keep);
    FilterConcat(r, t[|r|..], keep);
    FilterNone(s[..o], keep);
    FilterNone(t[|r|..], keep);
  }

  // ---------------------------------------------------------------------------
  // is_text_meaningful

  /** How many of the words are at most two characters long. */
  function ShortWordCount(words: seq<string>): (n: nat)
    ensures n <= |words|
  {
    if words == [] then 0
    else ShortWordCount(words[..|words| - 1]) + (if |words[|words| - 1]| <= 2 then 1 else 0)
  }

  /** `is_text_meaningful`. The test `len(short_words) / len(words) > 0.7` is the exact
      integer comparison `10 * short > 7 * total`. With `minWords <= 0` a text made only of
      whitespace has no words, and the division raises `ZeroDivisionError`. */
  function IsTextMeaningful(text: string, minWords: int := 50): (r: Result<bool, string>)
    ensures text == "" ==> r == Success(false)
    ensures r.Failure? <==> text != "" && minWords <= 0 && forall i :: 0 <= i < |text| ==> IsSpace(text[i])
    ensures r == Success(true) <==>
      && text != ""
      && |Words(text)| >= minWords
      && |Words(text)| >= 1
      && 10 * ShortWordCount(Words(text)) <= 7 * |Words(text)|
  {
    if text == "" then Success(false)
    else
      var words := Words(text);
      if |words| < minWords then Success(false)
      else if |words| == 0 then Failure("division by zero")
      else if 10 * ShortWordCount(words) > 7 * |words| then Success(false)
      else Success(true)
  }

  /** With the default threshold, or any positive one, a text made only of whitespace is
      never meaningful and never fails. */
  lemma BlankTextIsNotMeaningful(text: string, minWords: int)
    requires minWords >= 1
    requires forall i :: 0 <= i < |text| ==> IsSpace(text[i])
    ensures IsTextMeaningful(text, minWords) == Success(false)
  {
  }

  /** A meaningful text has at least `minWords` words, and at least 30% of them are
      longer than two characters. */
  lemma MeaningfulTextHasLongWords(text: string, minWords: int)
    requires IsTextMeaningful(text, minWords) == Success(true)
    ensures |Words(text)| >= minWords
    ensures 10 * (|Words(text)| - ShortWordCount(Words(text))) >= 3 * |Words(text)|
  {
  }

  // ---------------------------------------------------------------------------
  // The sentence split: re.split(r'(?<=[.!?])\s+', page_text)

  predicate IsSentenceEnd(c: char) {
    c == '.' || c == '!' || c == '?'
  }

  /** A whitespace run that the split removes starts at `i`. */
  predicate BreakAt(s: string, i: int) {
    0 < i < |s| && IsSentenceEnd(s[i - 1]) && IsSpace(s[i])
  }

  /** The split continued from position `i`, the current piece starting at `start`. The
      search resumes after a removed run, where the look-behind sees a space. */
  function SplitFrom(s: string, start: nat, i: nat): (pieces: seq<string>)
    requires start <= i <= |s|
    ensures |pieces| >= 1
    decreases |s| - i
  {
    if i == |s| then [s[start..]]
    else if BreakAt(s, i) then
      var j := |s| - |StripStart(s[i..])|;
      StripStartSpec(s[i..]);
      assert s[i..][0] == s[i];
      [s[start..i]] + SplitFrom(s, j, j)
    else SplitFrom(s, start, i + 1)
  }

  /** The sentences of a page, in order; at least one (`re.split` of "" is `[""]`). */
  function SplitSentences(text: string): (sentences: seq<string>)
    ensures |sentences| >= 1
  {
    SplitFrom(text, 0, 0)
  }

  // ---------------------------------------------------------------------------
  // chunk_text

  /** One page of `page_texts`, in the dictionary's order. */
  datatype Page = Page(number: int, text: string)

  /** One element of the list `chunk_text` returns. */
  datatype TextChunk = TextChunk(text: string, page: int, chunkIndex: int, charCount: int)

  /** The greedy test: the sentence does not fit behind a non-empty buffer. */
  predicate Overflows(buffer: string, sentence: string, chunkSize: int) {
    |buffer| + |sentence| + 1 > chunkSize && buffer != ""
  }

  /** The text carried into the next chunk: `current_chunk[-chunk_overlap:]` when the
      buffer is longer than `chunk_overlap`, else the whole buffer. With `chunk_overlap == 0`
      the slice `[-0:]` is the whole buffer, so nothing is dropped. */
  function OverlapText(buffer: string, chunkOverlap: int): (r: string)
    ensures |r| <= |buffer|
    ensures chunkOverlap >= 1 ==> |r| == Min(chunkOverlap, |buffer|)
    ensures chunkOverlap == 0 ==> r == buffer
  {
    if |buffer| > chunkOverlap then PyTail(buffer, chunkOverlap) else buffer
  }

  /** The state of the sentence loop on one page: the texts emitted so far and the
      running buffer `current_chunk`. */
  datatype PageFill = PageFill(emitted: seq<string>, buffer: string)

  /** One turn of the sentence loop. */
  function Feed(f: PageFill, sentence: string, chunkSize: int, chunkOverlap: int): PageFill {
    if Overflows(f.buffer, sentence, chunkSize) then
      PageFill(f.emitted + [Strip(f.buffer)], OverlapText(f.buffer, chunkOverlap) + " " + sentence)
    else
      PageFill(f.emitted, f.buffer + " " + sentence)
  }

  /** The state after feeding the given sentences to an empty buffer. */
  function FillPage(sentences: seq<string>, chunkSize: int, chunkOverlap: int): PageFill {
    if sentences == [] then PageFill([], "")
    else
      Feed(FillPage(sentences[..|sentences| - 1], chunkSize, chunkOverlap),
           sentences[|sentences| - 1], chunkSize, chunkOverlap)
  }

  /** The chunk texts of one page: those emitted on overflow, then the final buffer,
      stripped, unless it is only whitespace. */
  function PageChunkTexts(sentences: seq<string>, chunkSize: int, chunkOverlap: int): seq<string> {
    var f := FillPage(sentences, chunkSize, chunkOverlap);
    f.emitted + (if Strip(f.buffer) != "" then [Strip(f.buffer)] else [])
  }

  /** The chunk records of one page's texts, numbered from `first`. */
  function NumberChunks(texts: seq<string>, page: int, first: int): (chunks: seq<TextChunk>)
    ensures |chunks| == |texts|
  {
    seq(|texts|, i requires 0 <= i < |texts| => TextChunk(texts[i], page, first + i, |texts[i]|))
  }

  /** The `i`-th record carries the `i`-th text, the page, the index `first + i` and the
      text's length. */
  lemma NumberChunksSpec(texts: seq<string>, page: int, first: int)
    ensures forall i :: 0 <= i < |texts| ==>
      NumberChunks(texts, page, first)[i] == TextChunk(texts[i], page, first + i, |texts[i]|)
  {
  }

  function PageChunks(p: Page, chunkSize: int, chunkOverlap: int): seq<string> {
    PageChunkTexts(SplitSentences(p.text), chunkSize, chunkOverlap)
  }

  /** All chunks of the pages, page after page, numbered by one running counter. */
  function ChunkPages(pages: seq<Page>, chunkSize: int, chunkOverlap: int): seq<TextChunk> {
    if pages == [] then []
    else
      var before := ChunkPages(pages[..|pages| - 1], chunkSize, chunkOverlap);
      var p := pages[|pages| - 1];
      before + NumberChunks(PageChunks(p, chunkSize, chunkOverlap), p.number, |before|)
  }

  /** The state after feeding the first `j` sentences, counted by position. */
  function FillPrefix(sentences: seq<string>, j: nat, chunkSize: int, chunkOverlap: int): PageFill
    requires j <= |sentences|
  {
    if j == 0 then PageFill([], "")
    else Feed(FillPrefix(sentences, j - 1, chunkSize, chunkOverlap), sentences[j - 1], chunkSize, chunkOverlap)
  }

  lemma FillPrefixStep(sentences: seq<string>, j: nat, chunkSize: int, chunkOverlap: int)
    requires j < |sentences|
    ensures FillPrefix(sentences, j + 1, chunkSize, chunkOverlap)
      == Feed(FillPrefix(sentences, j, chunkSize, chunkOverlap), sentences[j], chunkSize, chunkOverlap)
  {
  }

  lemma {:induction false} FillPrefixIsFillPage(sentences: seq<string>, j: nat, chunkSize: int, chunkOverlap: int)
    requires j <= |sentences|
    ensures FillPrefix(sentences, j, chunkSize, chunkOverlap) == FillPage(sentences[..j], chunkSize, chunkOverlap)
  {
    if j > 0 {
      FillPrefixIsFillPage(sentences, j - 1, chunkSize, chunkOverlap);
      FillPageStep(sentences, j - 1, chunkSize, chunkOverlap);
    }
  }

  /** Feeding one more sentence. */
  lemma FillPageStep(sentences: seq<string>, j: int, chunkSize: int, chunkOverlap: int)
    requires 0 <= j < |sentences|
    ensures FillPage(sentences[..j + 1], chunkSize, chunkOverlap)
      == Feed(FillPage(sentences[..j], chunkSize, chunkOverlap), sentences[j], chunkSize, chunkOverlap)
  {
    assert sentences[..j + 1][..j] == sentences[..j];
  }

  /** Numbering one more text. */
  lemma NumberChunksAppend(texts: seq<string>, t: string, page: int, first: int)
    ensures NumberChunks(texts + [t], page, first)
      == NumberChunks(texts, page, first) + [TextChunk(t, page, first + |texts|, |t|)]
  {
    NumberChunksSpec(texts, page, first);
    NumberChunksSpec(texts + [t], page, first);
  }

  /** One turn of the sentence loop, as the loop performs it: on overflow one numbered
      record is added and the buffer restarts from the carried text; otherwise the sentence
      is appended to the buffer. */
  lemma FeedNumbered(f: PageFill, sentence: string, chunkSize: int, chunkOverlap: int, page: int, first: int)
    ensures var next := Feed(f, sentence, chunkSize, chunkOverlap);
      if |f.buffer| + |sentence| + 1 > chunkSize && f.buffer != "" then
        && NumberChunks(next.emitted, page, first)
             == NumberChunks(f.emitted, page, first) + [TextChunk(Strip(f.buffer), page, first + |f.emitted|, |Strip(f.buffer)|)]
        && next.buffer == OverlapText(f.buffer, chunkOverlap) + " " + sentence
      else
        next == PageFill(f.emitted, f.buffer + " " + sentence)
  {
    NumberChunksAppend(f.emitted, Strip(f.buffer), page, first);
  }

  /** Chunking one more page. */
  lemma ChunkPagesStep(pages: seq<Page>, p: int, chunkSize: int, chunkOverlap: int)
    requires 0 <= p < |pages|
    ensures var before := ChunkPages(pages[..p], chunkSize, chunkOverlap);
      ChunkPages(pages[..p + 1], chunkSize, chunkOverlap)
        == before + NumberChunks(PageChunks(pages[p], chunkSize, chunkOverlap), pages[p].number, |before|)
  {
    assert pages[..p + 1][..p] == pages[..p];
  }

  /** `chunk_text(page_texts, chunk_size, chunk_overlap)`: the pages in order, with one
      chunk counter running across all of them. */
  method ChunkText(pages: seq<Page>, chunkSize: int := 1000, chunkOverlap: int := 200)
    returns (chunks: seq<TextChunk>)
    ensures chunks == ChunkPages(pages, chunkSize, chunkOverlap)
    ensures forall i :: 0 <= i < |chunks| ==> chunks[i].chunkIndex == i
    ensures forall i :: 0 <= i < |chunks| ==> chunks[i].charCount == |chunks[i].text|
  {
    chunks := [];
    var chunkIndex := 0;
    var p := 0;
    while p < |pages|
      invariant 0 <= p <= |pages|
      invariant chunks == ChunkPages(pages[..p], chunkSize, chunkOverlap)
      invariant chunkIndex == |chunks|
    {
      var pageChunks := ChunkPage(pages[p], chunkIndex, chunkSize, chunkOverlap);
      ChunkPagesStep(pages, p, chunkSize, chunkOverlap);
      chunks := chunks + pageChunks;
      chunkIndex := chunkIndex + |pageChunks|;
      p := p + 1;
    }
    assert pages[..p] == pages;
    ChunksAreNumberedInOrder(pages, chunkSize, chunkOverlap);
  }

  /** The body of `chunk_text`'s page loop: the sentence loop with its buffer, then the
      final buffer; the chunks are numbered from the running counter `first`. */
  method ChunkPage(page: Page, first: int, chunkSize: int, chunkOverlap: int)
    returns (pageChunks: seq<TextChunk>)
    ensures pageChunks == NumberChunks(PageChunks(page, chunkSize, chunkOverlap), page.number, first)
  {
    var sentences := SplitSentences(page.text);
    var current;
    pageChunks, current := FillSentences(sentences, page.number, first, chunkSize, chunkOverlap);
    ghost var fill := FillPage(sentences, chunkSize, chunkOverlap);
    if Strip(current) != "" {
      NumberChunksAppend(fill.emitted, Strip(current), page.number, first);
      pageChunks := pageChunks + [TextChunk(Strip(current), page.number, first + |pageChunks|, |Strip(current)|)];
    } else {
      assert fill.emitted + [] == fill.emitted;
    }
  }

  /** The sentence loop of one page: the records emitted on overflow, numbered from
      `first`, and the buffer left at the end. */
  method FillSentences(sentences: seq<string>, page: int, first: int, chunkSize: int, chunkOverlap: int)
    returns (pageChunks: seq<TextChunk>, current: string)
    ensures pageChunks == NumberChunks(FillPage(sentences, chunkSize, chunkOverlap).emitted, page, first)
    ensures current == FillPage(sentences, chunkSize, chunkOverlap).buffer
  {
    pageChunks := [];
    var chunkIndex := first;
    current := "";
    var j := 0;
    while j < |sentences|
      invariant 0 <= j <= |sentences|
      invariant current == FillPrefix(sentences, j, chunkSize, chunkOverlap).buffer
      invariant pageChunks == NumberChunks(FillPrefix(sentences, j, chunkSize, chunkOverlap).emitted, page, first)
      invariant chunkIndex == first + |pageChunks|
    {
      FillPrefixStep(sentences, j, chunkSize, chunkOverlap);
      pageChunks, current, chunkIndex := FeedSentence(pageChunks, current, chunkIndex, sentences[j], page, first,
                                                      chunkSize, chunkOverlap, FillPrefix(sentences, j, chunkSize, chunkOverlap));
      j := j + 1;
    }
    FillPrefixIsFillPage(sentences, j, chunkSize, chunkOverlap);
    assert sentences[..j] == sentences;
  }

  /** One turn of the sentence loop: when the sentence does not fit behind a non-empty
      buffer, the stripped buffer is recorded under the running index and the buffer
      restarts from its overlap; otherwise the sentence joins the buffer after a space.
      The records and the buffer before the turn are those of the state `fill`; after
      it they are those of `Feed(fill, sentence)`. */
  method FeedSentence(pageChunks: seq<TextChunk>, current: string, chunkIndex: int, sentence: string,
                      page: int, first: int, chunkSize: int, chunkOverlap: int, ghost fill: PageFill)
    returns (pageChunks': seq<TextChunk>, current': string, chunkIndex': int)
    requires current == fill.buffer
    requires pageChunks == NumberChunks(fill.emitted, page, first)
    requires chunkIndex == first + |pageChunks|
    ensures var next := Feed(fill, sentence, chunkSize, chunkOverlap);
      && current' == next.buffer
      && pageChunks' == NumberChunks(next.emitted, page, first)
      && chunkIndex' == first + |pageChunks'|
  {
    FeedNumbered(fill, sentence, chunkSize, chunkOverlap, page, first);
    pageChunks', current', chunkIndex' := pageChunks, current, chunkIndex;
    if |current| + |sentence| + 1 > chunkSize && current != "" {
      var text := Strip(current);
      pageChunks' := pageChunks + [TextChunk(text, page, chunkIndex, |text|)];
      var overlapText := OverlapText(current, chunkOverlap);
      current' := overlapText + " " + sentence;
      chunkIndex' := chunkIndex + 1;
    } else {
      current' := current + " " + sentence;
    }
  }

  // ---------------------------------------------------------------------------
  // Properties of chunk_text

  /** Chunk indices run 0, 1, 2, ... across all pages, and every chunk's `char_count`
      is the length of its text. */
  lemma {:induction false} ChunksAreNumberedInOrder(pages: seq<Page>, chunkSize: int, chunkOverlap: int)
    ensures forall i :: 0 <= i < |ChunkPages(pages, chunkSize, chunkOverlap)| ==>
      && ChunkPages(pages, chunkSize, chunkOverlap)[i].chunkIndex == i
      && ChunkPages(pages, chunkSize, chunkOverlap)[i].charCount == |ChunkPages(pages, chunkSize, chunkOverlap)[i].text|
  {
    if pages != [] {
      var init := pages[..|pages| - 1];
      ChunksAreNumberedInOrder(init, chunkSize, chunkOverlap);
      var before := ChunkPages(init, chunkSize, chunkOverlap);
      var p := pages[|pages| - 1];
      var texts := PageChunks(p, chunkSize, chunkOverlap);
      var added := NumberChunks(texts, p.number, |before|);
      NumberChunksSpec(texts, p.number, |before|);
      var chunks := ChunkPages(pages, chunkSize, chunkOverlap);
      assert chunks == before + added;
      forall i | 0 <= i < |chunks| ensures chunks[i].chunkIndex == i && chunks[i].charCount == |chunks[i].text| {
        if i < |before| {
          assert chunks[i] == before[i];
        } else {
          assert chunks[i] == added[i - |before|] == TextChunk(texts[i - |before|], p.number, i, |texts[i - |before|]|);
        }
      }
    }
  }

  /** Every chunk carries the number of one page and one of that page's own chunk texts:
      no chunk mixes text from two pages. */
  lemma {:induction false} ChunkComesFromOnePage(pages: seq<Page>, chunkSize: int, chunkOverlap: int, i: int)
    requires 0 <= i < |ChunkPages(pages, chunkSize, chunkOverlap)|
    ensures var c := ChunkPages(pages, chunkSize, chunkOverlap)[i];
      exists p :: 0 <= p < |pages| && c.page == pages[p].number && c.text in PageChunks(pages[p], chunkSize, chunkOverlap)
  {
    var init := pages[..|pages| - 1];
    var before := ChunkPages(init, chunkSize, chunkOverlap);
    var last := |pages| - 1;
    if i < |before| {
      ChunkComesFromOnePage(init, chunkSize, chunkOverlap, i);
      var p :| 0 <= p < |init| && before[i].page == init[p].number
        && before[i].text in PageChunks(init[p], chunkSize, chunkOverlap);
      assert init[p] == pages[p];
    } else {
      var texts := PageChunks(pages[last], chunkSize, chunkOverlap);
      NumberChunksSpec(texts, pages[last].number, |before|);
      assert ChunkPages(pages, chunkSize, chunkOverlap)[i] == NumberChunks(texts, pages[last].number, |before|)[i - |before|];
      assert texts[i - |before|] in texts;
    }
  }

  /** The length of the longest sentence. */
  function LongestSentence(sentences: seq<string>): (m: nat)
    ensures forall i :: 0 <= i < |sentences| ==> |sentences[i]| <= m
  {
    if sentences == [] then 0
    else Max(LongestSentence(sentences[..|sentences| - 1]), |sentences[|sentences| - 1]|)
  }

  /** The buffer and every emitted text are at most `bound` characters long. */
  predicate FillWithin(f: PageFill, bound: int) {
    |f.buffer| <= bound && forall k :: 0 <= k < |f.emitted| ==> |f.emitted[k]| <= bound
  }

  /** One turn of the loop keeps the bound when the bound admits the chunk size and the
      carried overlap, a space and the new sentence. */
  lemma FeedStaysWithin(f: PageFill, sentence: string, chunkSize: int, chunkOverlap: int, bound: int)
    requires chunkOverlap >= 1
    requires FillWithin(f, bound)
    requires chunkSize <= bound && chunkOverlap + 1 + |sentence| <= bound
    ensures FillWithin(Feed(f, sentence, chunkSize, chunkOverlap), bound)
  {
    if Overflows(f.buffer, sentence, chunkSize) {
      var e := f.emitted + [Strip(f.buffer)];
      assert forall k :: 0 <= k < |e| ==> e[k] == if k < |f.emitted| then f.emitted[k] else Strip(f.buffer);
    }
  }

  /** With `chunk_overlap >= 1`, the buffer and every emitted text stay within the chunk
      size, or within the carried overlap plus one space plus the longest sentence when a
      single sentence does not fit: a sentence is never cut. */
  lemma {:induction false} FillStaysBounded(sentences: seq<string>, chunkSize: int, chunkOverlap: int)
    requires chunkOverlap >= 1
    ensures FillWithin(FillPage(sentences, chunkSize, chunkOverlap),
                       Max(chunkSize, chunkOverlap + 1 + LongestSentence(sentences)))
  {
    if sentences != [] {
      var init := sentences[..|sentences| - 1];
      FillStaysBounded(init, chunkSize, chunkOverlap);
      var bound := Max(chunkSize, chunkOverlap + 1 + LongestSentence(sentences));
      WithinGrows(FillPage(init, chunkSize, chunkOverlap),
                  Max(chunkSize, chunkOverlap + 1 + LongestSentence(init)), bound);
      FeedStaysWithin(FillPage(init, chunkSize, chunkOverlap), sentences[|sentences| - 1],
                      chunkSize, chunkOverlap, bound);
    }
  }

  lemma WithinGrows(f: PageFill, small: int, large: int)
    requires FillWithin(f, small) && small <= large
    ensures FillWithin(f, large)
  {
  }

  /** When every sentence is shorter than `chunk_size`, every chunk of the page is at
      most `chunk_size + chunk_overlap` characters long. */
  lemma PageChunksBounded(sentences: seq<string>, chunkSize: int, chunkOverlap: int)
    requires chunkOverlap >= 1
    requires forall i :: 0 <= i < |sentences| ==> |sentences[i]| < chunkSize
    ensures forall t :: t in PageChunkTexts(sentences, chunkSize, chunkOverlap) ==> |t| <= chunkSize + chunkOverlap
  {
    FillStaysBounded(sentences, chunkSize, chunkOverlap);
    var m := LongestSentence(sentences);
    assert sentences != [] ==> m < chunkSize by {
      if sentences != [] {
        LongestIsOneOf(sentences);
      }
    }
  }

  lemma {:induction false} LongestIsOneOf(sentences: seq<string>)
    requires sentences != []
    ensures exists i :: 0 <= i < |sentences| && |sentences[i]| == LongestSentence(sentences)
  {
    var init := sentences[..|sentences| - 1];
    if init != [] && LongestSentence(init) >= |sentences[|sentences| - 1]| {
      LongestIsOneOf(init);
      var i :| 0 <= i < |init| && |init[i]| == LongestSentence(init);
      assert sentences[i] == init[i];
    } else {
      assert |sentences[|sentences| - 1]| == LongestSentence(sentences);
    }
  }

  /** A sentence longer than `chunk_size` is kept whole, so a chunk can exceed
      `chunk_size + chunk_overlap`. */
  lemma LongSentenceIsNotCut()
    ensures PageChunkTexts(["abcdef"], 2, 1) == ["abcdef"]
  {
    var f := FillPage(["abcdef"], 2, 1);
    assert ["abcdef"][..0] == [];
    assert f.buffer == " abcdef";
    StripSpec(" abcdef");
    assert StripStart(" abcdef") == "abcdef";
    assert StripEnd("abcdef") == "abcdef";
  }

  // ---------------------------------------------------------------------------
  // Each sentence enters exactly one buffer

  /** `" " + s` for every sentence, concatenated: what the sentences add to a buffer. */
  function Spaced(sentences: seq<string>): string {
    if sentences == [] then "" else Spaced(sentences[..|sentences| - 1]) + " " + sentences[|sentences| - 1]
  }

  function Flatten<T>(groups: seq<seq<T>>): seq<T> {
    if groups == [] then [] else Flatten(groups[..|groups| - 1]) + groups[|groups| - 1]
  }

  /** The groups after one more sentence: a new group when it overflows the buffer,
      else the running buffer's group grows. */
  function NextGroups(g: seq<seq<string>>, buffer: string, sentence: string, chunkSize: int): (r: seq<seq<string>>)
    requires |g| >= 1
    ensures |r| >= 1
  {
    if Overflows(buffer, sentence, chunkSize) then g + [[sentence]]
    else g[..|g| - 1] + [g[|g| - 1] + [sentence]]
  }

  /** The sentences each buffer of a page received, one group per buffer; the last group
      belongs to the running buffer. */
  function Groups(sentences: seq<string>, chunkSize: int, chunkOverlap: int): (groups: seq<seq<string>>)
    ensures |groups| >= 1
  {
    if sentences == [] then [[]]
    else
      var init := sentences[..|sentences| - 1];
      NextGroups(Groups(init, chunkSize, chunkOverlap), FillPage(init, chunkSize, chunkOverlap).buffer,
                 sentences[|sentences| - 1], chunkSize)
  }

  /** The state of a page rebuilt from the sentences each buffer received: the first
      buffer holds its own sentences, each after a space; every later buffer starts from
      the overlap of the buffer before it, which was emitted stripped. */
  function Replay(g: seq<seq<string>>, chunkOverlap: int): (f: PageFill)
    requires |g| >= 1
    ensures |f.emitted| == |g| - 1
  {
    if |g| == 1 then PageFill([], Spaced(g[0]))
    else
      var before := Replay(g[..|g| - 1], chunkOverlap);
      PageFill(before.emitted + [Strip(before.buffer)], OverlapText(before.buffer, chunkOverlap) + Spaced(g[|g| - 1]))
  }

  /** The groups describe a page's state: every buffer after the first starts with a
      sentence of its own, and replaying the groups gives the emitted texts and the
      running buffer. */
  predicate Describes(g: seq<seq<string>>, f: PageFill, chunkOverlap: int)
    requires |g| >= 1
  {
    LaterGroupsNonEmpty(g) && f == Replay(g, chunkOverlap)
  }

  predicate LaterGroupsNonEmpty(g: seq<seq<string>>) {
    forall k :: 1 <= k < |g| ==> g[k] != []
  }

  /** A new group, or a longer last group, keeps every group after the first non-empty. */
  lemma LaterGroupsGrow(g: seq<seq<string>>, s: string)
    requires |g| >= 1 && LaterGroupsNonEmpty(g)
    ensures LaterGroupsNonEmpty(g + [[s]])
    ensures LaterGroupsNonEmpty(g[..|g| - 1] + [g[|g| - 1] + [s]])
  {
    var g1, g2 := g + [[s]], g[..|g| - 1] + [g[|g| - 1] + [s]];
    forall k | 1 <= k < |g1| ensures g1[k] != [] {
      if k < |g| {
        assert g1[k] == g[k];
      }
    }
    forall k | 1 <= k < |g2| ensures g2[k] != [] {
      if k < |g| - 1 {
        assert g2[k] == g[k];
      }
    }
  }

  /** One turn of the loop keeps the description and adds its sentence to the groups. */
  lemma FeedKeepsGroups(g: seq<seq<string>>, f: PageFill, s: string, chunkSize: int, chunkOverlap: int)
    requires |g| >= 1
    requires Describes(g, f, chunkOverlap)
    ensures Describes(NextGroups(g, f.buffer, s, chunkSize), Feed(f, s, chunkSize, chunkOverlap), chunkOverlap)
    ensures Flatten(NextGroups(g, f.buffer, s, chunkSize)) == Flatten(g) + [s]
  {
    if Overflows(f.buffer, s, chunkSize) {
      OverflowStartsGroup(g, f, s, chunkOverlap);
    } else {
      FitJoinsGroup(g, f, s, chunkOverlap);
    }
  }

  /** A sentence that overflows closes the running buffer as the next emitted text, and
      starts a new group whose buffer is the old buffer's overlap, a space and the
      sentence. */
  lemma OverflowStartsGroup(g: seq<seq<string>>, f: PageFill, s: string, chunkOverlap: int)
    requires |g| >= 1
    requires Describes(g, f, chunkOverlap)
    ensures Describes(g + [[s]], PageFill(f.emitted + [Strip(f.buffer)], OverlapText(f.buffer, chunkOverlap) + " " + s), chunkOverlap)
    ensures Flatten(g + [[s]]) == Flatten(g) + [s]
  {
    FlattenAppend(g, [s]);
    ReplayOverflow(g, s, chunkOverlap);
    LaterGroupsGrow(g, s);
  }

  lemma ReplayOverflow(g: seq<seq<string>>, s: string, chunkOverlap: int)
    requires |g| >= 1
    ensures var f := Replay(g, chunkOverlap);
      Replay(g + [[s]], chunkOverlap) == PageFill(f.emitted + [Strip(f.buffer)], OverlapText(f.buffer, chunkOverlap) + " " + s)
  {
    var g' := g + [[s]];
    assert g'[..|g|] == g && g'[|g|] == [s];
    SpacedOne(s);
    ConcatAssoc(OverlapText(Replay(g, chunkOverlap).buffer, chunkOverlap), " ", s);
  }

  lemma FlattenAppend<T>(g: seq<seq<T>>, x: seq<T>)
    ensures Flatten(g + [x]) == Flatten(g) + x
  {
    assert (g + [x])[..|g|] == g;
  }

  lemma InitAndLast<T>(s: seq<T>)
    requires s != []
    ensures s[..|s| - 1] + [s[|s| - 1]] == s
  {
  }

  lemma SpacedOne(s: string)
    ensures Spaced([s]) == " " + s
  {
    assert [s][..0] == [];
  }

  /** A sentence that fits joins the running buffer's group after a space. */
  lemma FitJoinsGroup(g: seq<seq<string>>, f: PageFill, s: string, chunkOverlap: int)
    requires |g| >= 1
    requires Describes(g, f, chunkOverlap)
    ensures var g' := g[..|g| - 1] + [g[|g| - 1] + [s]];
      && Describes(g', PageFill(f.emitted, f.buffer + " " + s), chunkOverlap)
      && Flatten(g') == Flatten(g) + [s]
  {
    ReplayFit(g, s, chunkOverlap);
    FlattenFit(g, s);
    LaterGroupsGrow(g, s);
  }

  lemma ReplayFit(g: seq<seq<string>>, s: string, chunkOverlap: int)
    requires |g| >= 1
    ensures var f := Replay(g, chunkOverlap);
      Replay(g[..|g| - 1] + [g[|g| - 1] + [s]], chunkOverlap) == PageFill(f.emitted, f.buffer + " " + s)
  {
    var n := |g|;
    var last := g[n - 1];
    var g' := g[..n - 1] + [last + [s]];
    assert g'[..n - 1] == g[..n - 1] && g'[n - 1] == last + [s];
    assert (last + [s])[..|last|] == last;
    assert Spaced(last + [s]) == Spaced(last) + " " + s;
    if n > 1 {
      var carried := OverlapText(Replay(g[..n - 1], chunkOverlap).buffer, chunkOverlap);
      ConcatAssoc(carried, Spaced(last), " ");
      ConcatAssoc(carried, Spaced(last) + " ", s);
    }
  }

  lemma FlattenFit<T>(g: seq<seq<T>>, s: T)
    requires |g| >= 1
    ensures Flatten(g[..|g| - 1] + [g[|g| - 1] + [s]]) == Flatten(g) + [s]
  {
    var n := |g|;
    FlattenAppend(g[..n - 1], g[n - 1] + [s]);
    assert g == g[..n - 1] + [g[n - 1]];
    FlattenAppend(g[..n - 1], g[n - 1]);
    ConcatAssoc(Flatten(g[..n - 1]), g[n - 1], [s]);
  }

  /** Every sentence of a page enters exactly one buffer, in order: the groups of sentences
      the buffers received concatenate back to the page's sentences, and replaying them
      gives every emitted text and the running buffer. */
  lemma {:induction false} SentencesEnterOnce(sentences: seq<string>, chunkSize: int, chunkOverlap: int)
    ensures Flatten(Groups(sentences, chunkSize, chunkOverlap)) == sentences
    ensures Describes(Groups(sentences, chunkSize, chunkOverlap), FillPage(sentences, chunkSize, chunkOverlap), chunkOverlap)
  {
    if sentences == [] {
      assert Spaced([]) == "";
    } else {
      var init, last := sentences[..|sentences| - 1], sentences[|sentences| - 1];
      SentencesEnterOnce(init, chunkSize, chunkOverlap);
      var g, f := Groups(init, chunkSize, chunkOverlap), FillPage(init, chunkSize, chunkOverlap);
      assert Groups(sentences, chunkSize, chunkOverlap) == NextGroups(g, f.buffer, last, chunkSize);
      assert FillPage(sentences, chunkSize, chunkOverlap) == Feed(f, last, chunkSize, chunkOverlap);
      FeedKeepsGroups(g, f, last, chunkSize, chunkOverlap);
      InitAndLast(sentences);
    }
  }
}
