/** `extract_video_id` and `chunk_transcript_by_time` of backend/app/youtube.py: finding
    the eleven-character video id in a URL, and cutting a transcript into overlapping
    time windows. */
module Youtube {
  import opened Wrappers
  import opened Text

  // ---------------------------------------------------------------------------
  // extract_video_id

  const WatchPrefix := "youtube.com/watch?v="
  const ShortPrefix := "youtu.be/"
  const EmbedPrefix := "youtube.com/embed/"
  const LegacyPrefix := "youtube.com/v/"

  /** The three patterns, tried in this order; the first is an alternation. */
  const FirstPattern := [WatchPrefix, ShortPrefix]
  const SecondPattern := [EmbedPrefix]
  const ThirdPattern := [LegacyPrefix]
  const AllPrefixes := [WatchPrefix, ShortPrefix, EmbedPrefix, LegacyPrefix]

  const IdLength := 11

  const InvalidUrlMessage := "Invalid YouTube URL. Please provide a valid URL like:\n"
    + "  - https://www.youtube.com/watch?v=VIDEO_ID\n"
    + "  - https://youtu.be/VIDEO_ID"

  /** `[a-zA-Z0-9_-]`. */
  predicate IsIdChar(c: char) {
    IsAsciiLetter(c) || IsDigit(c) || c == '_' || c == '-'
  }

  predicate IsVideoId(id: string) {
    |id| == IdLength && forall k :: 0 <= k < |id| ==> IsIdChar(id[k])
  }

  /** The regular expression `prefix([a-zA-Z0-9_-]{11})` matches at position `i`. */
  predicate MatchesAt(url: string, i: int, prefix: string) {
    && 0 <= i
    && i + |prefix| + IdLength <= |url|
    && url[i..i + |prefix|] == prefix
    && IsVideoId(url[i + |prefix|..i + |prefix| + IdLength])
  }

  /** The captured group of a match. */
  function IdAt(url: string, i: int, prefix: string): (id: string)
    requires MatchesAt(url, i, prefix)
    ensures IsVideoId(id)
  {
    url[i + |prefix|..i + |prefix| + IdLength]
  }

  /** The alternatives tried in order at one position: the id of the first that matches. */
  function AlternativeAt(url: string, i: int, alternatives: seq<string>): (r: Option<string>)
    ensures r.None? <==> forall a :: a in alternatives ==> !MatchesAt(url, i, a)
    ensures r.Some? ==> exists a :: a in alternatives && MatchesAt(url, i, a) && r.value == IdAt(url, i, a)
    ensures alternatives != [] && MatchesAt(url, i, alternatives[0]) ==> r == Some(IdAt(url, i, alternatives[0]))
  {
    if alternatives == [] then None
    else if MatchesAt(url, i, alternatives[0]) then Some(IdAt(url, i, alternatives[0]))
    else AlternativeAt(url, i, alternatives[1..])
  }

  /** `re.search` from position `i` on: the leftmost position where the pattern matches. */
  function Search(url: string, alternatives: seq<string>, i: nat): (r: Option<nat>)
    ensures r.Some? ==> i <= r.value && AlternativeAt(url, r.value, alternatives).Some?
    ensures r.Some? ==> forall j :: i <= j < r.value ==> AlternativeAt(url, j, alternatives).None?
    ensures r.None? ==> forall j :: i <= j ==> AlternativeAt(url, j, alternatives).None?
    decreases |url| - i
  {
    if i >= |url| then None
    else if AlternativeAt(url, i, alternatives).Some? then Some(i)
    else Search(url, alternatives, i + 1)
  }

  /** `re.search(pattern, url).group(1)`, or `None` when the pattern does not match. */
  function SearchId(url: string, alternatives: seq<string>): (r: Option<string>)
    ensures r.Some? ==> IsVideoId(r.value)
  {
    match Search(url, alternatives, 0)
    case Some(j) => AlternativeAt(url, j, alternatives)
    case None => None
  }

  /** One of the alternatives matches somewhere in the URL. */
  ghost predicate AnyMatch(url: string, alternatives: seq<string>) {
    exists j, a :: a in alternatives && MatchesAt(url, j, a)
  }

  /** The id is captured by a match of one of the alternatives. */
  ghost predicate CapturedBy(url: string, alternatives: seq<string>, id: string) {
    exists j, a :: a in alternatives && MatchesAt(url, j, a) && id == IdAt(url, j, a)
  }

  /** The search yields an id exactly when the pattern matches somewhere, and that id is
      captured by a match. */
  lemma SearchIdSpec(url: string, alternatives: seq<string>)
    ensures SearchId(url, alternatives).Some? <==> AnyMatch(url, alternatives)
    ensures SearchId(url, alternatives).Some? ==> CapturedBy(url, alternatives, SearchId(url, alternatives).value)
  {
    if AnyMatch(url, alternatives) {
      var j, a :| a in alternatives && MatchesAt(url, j, a);
      assert AlternativeAt(url, j, alternatives).Some?;
    }
  }

  /** `extract_video_id`: the id captured by the first of the three patterns that matches
      anywhere in the URL, or the `ValueError` when none does. */
  function ExtractVideoId(url: string): (r: Result<string, string>)
    ensures r.Success? ==> IsVideoId(r.value) && CapturedBy(url, AllPrefixes, r.value)
    ensures r.Failure? <==> !AnyMatch(url, AllPrefixes)
    ensures r.Failure? ==> r.error == InvalidUrlMessage
  {
    SearchIdSpec(url, FirstPattern);
    SearchIdSpec(url, SecondPattern);
    SearchIdSpec(url, ThirdPattern);
    PatternsCoverPrefixes(url);
    var first := SearchId(url, FirstPattern);
    if first.Some? then
      CapturedByWider(url, FirstPattern, first.value);
      Success(first.value)
    else
      var second := SearchId(url, SecondPattern);
      if second.Some? then
        CapturedByWider(url, SecondPattern, second.value);
        Success(second.value)
      else
        var third := SearchId(url, ThirdPattern);
        if third.Some? then
          CapturedByWider(url, ThirdPattern, third.value);
          Success(third.value)
        else Failure(InvalidUrlMessage)
  }

  /** The four prefixes match somewhere exactly when one of the three patterns does. */
  lemma PatternsCoverPrefixes(url: string)
    ensures AnyMatch(url, AllPrefixes) <==>
      AnyMatch(url, FirstPattern) || AnyMatch(url, SecondPattern) || AnyMatch(url, ThirdPattern)
  {
    if AnyMatch(url, AllPrefixes) {
      var j, a :| a in AllPrefixes && MatchesAt(url, j, a);
      if a in FirstPattern {
        assert AnyMatch(url, FirstPattern);
      } else if a == EmbedPrefix {
        assert AnyMatch(url, SecondPattern);
      } else {
        assert AnyMatch(url, ThirdPattern);
      }
    }
    if AnyMatch(url, FirstPattern) {
      var j, a :| a in FirstPattern && MatchesAt(url, j, a);
      assert a in AllPrefixes;
    }
    if AnyMatch(url, SecondPattern) {
      var j, a :| a in SecondPattern && MatchesAt(url, j, a);
      assert a in AllPrefixes;
    }
    if AnyMatch(url, ThirdPattern) {
      var j, a :| a in ThirdPattern && MatchesAt(url, j, a);
      assert a in AllPrefixes;
    }
  }

  lemma CapturedByWider(url: string, alternatives: seq<string>, id: string)
    requires forall a :: a in alternatives ==> a in AllPrefixes
    requires CapturedBy(url, alternatives, id)
    ensures CapturedBy(url, AllPrefixes, id)
  {
    var j, a :| a in alternatives && MatchesAt(url, j, a) && id == IdAt(url, j, a);
    assert a in AllPrefixes;
  }

  /** A `watch?v=` or `youtu.be/` match anywhere in the URL wins over the other two forms:
      the id comes from the leftmost such match. */
  lemma FirstPatternTakesPriority(url: string, j: int, a: string)
    requires a in FirstPattern && MatchesAt(url, j, a)
    ensures ExtractVideoId(url).Success?
    ensures exists j' ::
      && 0 <= j' <= j
      && AlternativeAt(url, j', FirstPattern).Some?
      && ExtractVideoId(url).value == AlternativeAt(url, j', FirstPattern).value
  {
    assert AlternativeAt(url, j, FirstPattern).Some?;
    var s := Search(url, FirstPattern, 0);
    assert s.Some?;
    assert s.value <= j;
  }

  /** The search finds the position `k` when nothing matches before it. */
  lemma SearchFinds(url: string, alternatives: seq<string>, k: nat)
    requires AlternativeAt(url, k, alternatives).Some?
    requires forall j :: 0 <= j < k ==> AlternativeAt(url, j, alternatives).None?
    ensures Search(url, alternatives, 0) == Some(k)
  {
    var s := Search(url, alternatives, 0);
    assert s.Some?;
    assert s.value <= k;
  }

  /** `j` is the leftmost position where one of the alternatives matches. */
  predicate LeftmostMatch(url: string, alternatives: seq<string>, j: int) {
    && 0 <= j
    && AlternativeAt(url, j, alternatives).Some?
    && forall i :: 0 <= i < j ==> AlternativeAt(url, i, alternatives).None?
  }

  /** The patterns are tried in order, and each yields the id of its leftmost match: the
      second pattern counts only when the first matches nowhere, and the third only when
      neither of the others does. */
  lemma PatternsTriedInOrder(url: string)
    ensures forall j :: LeftmostMatch(url, FirstPattern, j) ==>
      ExtractVideoId(url) == Success(AlternativeAt(url, j, FirstPattern).value)
    ensures !AnyMatch(url, FirstPattern) ==> forall j :: LeftmostMatch(url, SecondPattern, j) ==>
      ExtractVideoId(url) == Success(AlternativeAt(url, j, SecondPattern).value)
    ensures !AnyMatch(url, FirstPattern) && !AnyMatch(url, SecondPattern) ==>
      forall j :: LeftmostMatch(url, ThirdPattern, j) ==>
        ExtractVideoId(url) == Success(AlternativeAt(url, j, ThirdPattern).value)
  {
    SearchIdSpec(url, FirstPattern);
    SearchIdSpec(url, SecondPattern);
    forall j | LeftmostMatch(url, FirstPattern, j)
      ensures ExtractVideoId(url) == Success(AlternativeAt(url, j, FirstPattern).value)
    {
      SearchFinds(url, FirstPattern, j);
    }
    forall j | !AnyMatch(url, FirstPattern) && LeftmostMatch(url, SecondPattern, j)
      ensures ExtractVideoId(url) == Success(AlternativeAt(url, j, SecondPattern).value)
    {
      SearchFinds(url, SecondPattern, j);
    }
    forall j | !AnyMatch(url, FirstPattern) && !AnyMatch(url, SecondPattern) && LeftmostMatch(url, ThirdPattern, j)
      ensures ExtractVideoId(url) == Success(AlternativeAt(url, j, ThirdPattern).value)
    {
      SearchFinds(url, ThirdPattern, j);
    }
  }

  /** The two alternatives of the first pattern never match at the same position, so the
      id found at a position does not depend on their order. */
  lemma FirstAlternativesExclusive(url: string, i: int)
    ensures MatchesAt(url, i, WatchPrefix) ==> !MatchesAt(url, i, ShortPrefix)
  {
    if MatchesAt(url, i, WatchPrefix) {
      assert url[i + 5] == WatchPrefix[5] != ShortPrefix[5];
    }
  }

  /** No match can start at a position that does not hold a 'y'. */
  lemma NoMatchWithoutY(url: string, j: int)
    requires 0 <= j < |url| && url[j] != 'y'
    ensures AlternativeAt(url, j, FirstPattern).None?
  {
    forall a | a in FirstPattern ensures !MatchesAt(url, j, a) {
      assert a[0] == 'y';
      if j + |a| <= |url| {
        assert url[j..j + |a|][0] == url[j];
      }
    }
  }

  /** The id of a standard watch URL is found, whatever follows it. */
  lemma WatchUrlRoundTrip(id: string, rest: string)
    requires IsVideoId(id)
    ensures ExtractVideoId("https://www." + WatchPrefix + id + rest) == Success(id)
  {
    var url := "https://www." + WatchPrefix + id + rest;
    forall j | 0 <= j < 12 ensures AlternativeAt(url, j, FirstPattern).None? {
      assert url[j] == "https://www."[j];
      NoMatchWithoutY(url, j);
    }
    assert url[12..12 + |WatchPrefix|] == WatchPrefix;
    assert url[12 + |WatchPrefix|..12 + |WatchPrefix| + IdLength] == id;
    assert MatchesAt(url, 12, WatchPrefix);
    SearchFinds(url, FirstPattern, 12);
  }

  /** The id of a short `youtu.be` URL is found, whatever follows it. */
  lemma ShortUrlRoundTrip(id: string, rest: string)
    requires IsVideoId(id)
    ensures ExtractVideoId("https://" + ShortPrefix + id + rest) == Success(id)
  {
    var url := "https://" + ShortPrefix + id + rest;
    forall j | 0 <= j < 8 ensures AlternativeAt(url, j, FirstPattern).None? {
      assert url[j] == "https://"[j];
      NoMatchWithoutY(url, j);
    }
    assert url[8..8 + |ShortPrefix|] == ShortPrefix;
    assert url[8 + |ShortPrefix|..8 + |ShortPrefix| + IdLength] == id;
    assert url[13] == '.';
    assert url[8..8 + |WatchPrefix|][5] == '.' != WatchPrefix[5];
    assert MatchesAt(url, 8, ShortPrefix);
    SearchFinds(url, FirstPattern, 8);
  }

  // ---------------------------------------------------------------------------
  // chunk_transcript_by_time

  /** One transcript segment; start and duration are seconds as floats. */
  datatype Segment = Segment(start: real, duration: real, text: string)

  /** The video information `get_video_info` returns. */
  datatype VideoInfo = VideoInfo(videoId: string, title: string, url: string, channel: string, duration: int)

  /** One element of the list `chunk_transcript_by_time` returns. */
  datatype TimeChunk = TimeChunk(
    text: string,
    timestampStart: int,
    timestampEnd: int,
    videoId: string,
    videoTitle: string,
    videoUrl: string,
    channel: string,
    charCount: int)

  /** The segment overlaps the window `[from, to)`. */
  predicate Overlaps(s: Segment, from: int, to: int) {
    s.start < to as real && s.start + s.duration > from as real
  }

  /** The texts of the segments that overlap the window, in transcript order. */
  function Selected(transcript: seq<Segment>, from: int, to: int): (texts: seq<string>)
    ensures |texts| <= |transcript|
  {
    if transcript == [] then []
    else
      var last := transcript[|transcript| - 1];
      Selected(transcript[..|transcript| - 1], from, to) + (if Overlaps(last, from, to) then [last.text] else [])
  }

  /** A window's selection holds the text of every segment that overlaps it, and nothing
      else. */
  lemma {:induction false} SelectedIsOverlapping(transcript: seq<Segment>, from: int, to: int)
    ensures forall k :: 0 <= k < |transcript| && Overlaps(transcript[k], from, to) ==>
      transcript[k].text in Selected(transcript, from, to)
    ensures forall t :: t in Selected(transcript, from, to) ==>
      exists k :: 0 <= k < |transcript| && Overlaps(transcript[k], from, to) && transcript[k].text == t
  {
    if transcript != [] {
      var init := transcript[..|transcript| - 1];
      SelectedIsOverlapping(init, from, to);
      forall t | t in Selected(transcript, from, to)
        ensures exists k :: 0 <= k < |transcript| && Overlaps(transcript[k], from, to) && transcript[k].text == t
      {
        if t in Selected(init, from, to) {
          var k :| 0 <= k < |init| && Overlaps(init[k], from, to) && init[k].text == t;
          assert transcript[k] == init[k];
        } else {
          assert Overlaps(transcript[|transcript| - 1], from, to);
        }
      }
      forall k | 0 <= k < |transcript| && Overlaps(transcript[k], from, to)
        ensures transcript[k].text in Selected(transcript, from, to)
      {
        if k < |init| {
          assert transcript[k] == init[k];
        }
      }
    }
  }

  /** The chunk of the window `[from, to)` with the given selection. */
  function WindowChunk(info: VideoInfo, from: int, to: int, texts: seq<string>): (c: TimeChunk) {
    var text := Join(" ", texts);
    TimeChunk(text, from, to, info.videoId, info.title, info.url + "&t=" + IntToString(from) + "s", info.channel, |text|)
  }

  /** The end of the window that starts at `t`. */
  function WindowEnd(info: VideoInfo, t: int, chunkDuration: int): int {
    Min(t + chunkDuration, info.duration)
  }

  /** The chunk of the window `[from, to)`, or none when no segment overlaps it. */
  function Window(transcript: seq<Segment>, info: VideoInfo, from: int, to: int): seq<TimeChunk> {
    var texts := Selected(transcript, from, to);
    if texts != [] then [WindowChunk(info, from, to, texts)] else []
  }

  /** The chunks of the windows starting at `t`, `t + step`, ... while before the end of
      the video, where `step = chunkDuration - overlap`; a window that selects nothing is
      skipped. */
  function WindowsFrom(transcript: seq<Segment>, info: VideoInfo, t: int, chunkDuration: int, overlap: int): seq<TimeChunk>
    requires chunkDuration > overlap || t >= info.duration
    decreases info.duration - t
  {
    if t >= info.duration then []
    else
      Window(transcript, info, t, WindowEnd(info, t, chunkDuration))
        + WindowsFrom(transcript, info, t + chunkDuration - overlap, chunkDuration, overlap)
  }

  /** One window is taken from the front of the windows of a time before the end. */
  lemma WindowsFromStep(transcript: seq<Segment>, info: VideoInfo, t: int, chunkDuration: int, overlap: int)
    requires chunkDuration > overlap && t < info.duration
    ensures WindowsFrom(transcript, info, t, chunkDuration, overlap)
      == Window(transcript, info, t, Min(t + chunkDuration, info.duration))
         + WindowsFrom(transcript, info, t + chunkDuration - overlap, chunkDuration, overlap)
  {
  }

  /** All chunks of the transcript, from time 0. */
  function TimeChunks(transcript: seq<Segment>, info: VideoInfo, chunkDuration: int, overlap: int): seq<TimeChunk>
    requires chunkDuration > overlap || info.duration <= 0
  {
    WindowsFrom(transcript, info, 0, chunkDuration, overlap)
  }

  /** `chunk_transcript_by_time` with the configured defaults of 120-second windows that
      overlap by 30 seconds. When the step `chunkDuration - overlap` is not positive and the
      video has a positive duration, the loop of the original never ends; such calls are
      excluded. */
  method ChunkTranscriptByTime(transcript: seq<Segment>, info: VideoInfo, chunkDuration: int := 120, overlap: int := 30)
    returns (chunks: seq<TimeChunk>)
    requires chunkDuration > overlap || info.duration <= 0
    ensures chunks == TimeChunks(transcript, info, chunkDuration, overlap)
  {
    chunks := [];
    var currentTime := 0;
    var videoDuration := info.duration;
    ghost var all := TimeChunks(transcript, info, chunkDuration, overlap);
    while currentTime < videoDuration
      invariant chunkDuration > overlap || currentTime >= videoDuration
      invariant chunks + WindowsFrom(transcript, info, currentTime, chunkDuration, overlap) == all
      decreases videoDuration - currentTime
    {
      var found := WindowChunks(transcript, info, currentTime, Min(currentTime + chunkDuration, videoDuration));
      WindowsFromStep(transcript, info, currentTime, chunkDuration, overlap);
      AppendWindow(chunks, found, WindowsFrom(transcript, info, currentTime + chunkDuration - overlap, chunkDuration, overlap));
      chunks := chunks + found;
      currentTime := currentTime + chunkDuration - overlap;
    }
    assert WindowsFrom(transcript, info, currentTime, chunkDuration, overlap) == [];
    assert chunks + [] == chunks;
  }

  lemma AppendWindow(chunks: seq<TimeChunk>, found: seq<TimeChunk>, rest: seq<TimeChunk>)
    ensures chunks + (found + rest) == (chunks + found) + rest
  {
  }

  /** One pass of the outer loop of `chunk_transcript_by_time`: the chunk of the window
      `[from, to)`, or nothing when no segment overlaps it. */
  method WindowChunks(transcript: seq<Segment>, info: VideoInfo, from: int, to: int) returns (found: seq<TimeChunk>)
    ensures found == Window(transcript, info, from, to)
  {
    var chunkTexts := SelectTexts(transcript, from, to);
    found := [];
    if chunkTexts != [] {
      var text := Join(" ", chunkTexts);
      var chunk := TimeChunk(text, from, to, info.videoId, info.title,
                             info.url + "&t=" + IntToString(from) + "s", info.channel, |text|);
      found := [chunk];
    }
  }

  /** The inner loop of `chunk_transcript_by_time`: the texts of the segments that overlap
      the window `[from, to)`, in transcript order. */
  method SelectTexts(transcript: seq<Segment>, from: int, to: int) returns (texts: seq<string>)
    ensures texts == Selected(transcript, from, to)
  {
    texts := [];
    var k := 0;
    while k < |transcript|
      invariant 0 <= k <= |transcript|
      invariant texts == Selected(transcript[..k], from, to)
    {
      var segmentStart := transcript[k].start;
      var segmentEnd := transcript[k].start + transcript[k].duration;
      assert transcript[..k + 1][..k] == transcript[..k];
      if segmentStart < to as real && segmentEnd > from as real {
        texts := texts + [transcript[k].text];
      }
      k := k + 1;
    }
    assert transcript[..k] == transcript;
  }

  // ---------------------------------------------------------------------------
  // Properties of chunk_transcript_by_time

  /** `x` is `t` plus a whole number of steps. */
  predicate OnGrid(x: int, t: int, step: int)
    decreases x - t
  {
    step > 0 && t <= x && (x == t || OnGrid(x, t + step, step))
  }

  /** A step back along the grid stays on it. */
  lemma OnGridBack(x: int, t: int, step: int)
    requires step > 0 && OnGrid(x, t + step, step)
    ensures OnGrid(x, t, step)
  {
  }

  /** `c` is the chunk of a window starting before the end of the video and ending
      `chunkDuration` later or at the end of the video, whose selection is not empty. */
  predicate IsWindowChunk(c: TimeChunk, transcript: seq<Segment>, info: VideoInfo, chunkDuration: int) {
    var end := WindowEnd(info, c.timestampStart, chunkDuration);
    && c.timestampStart < info.duration
    && Selected(transcript, c.timestampStart, end) != []
    && c == WindowChunk(info, c.timestampStart, end, Selected(transcript, c.timestampStart, end))
  }

  /** Every chunk belongs to one window: it starts at `t` plus a whole number of steps,
      before the end of the video, and ends `chunkDuration` later or at the end of the
      video; it joins with spaces the non-empty selection of its window, counts the
      characters of that text, and links to the video at its start second. */
  lemma {:induction false} ChunksAreWindows(transcript: seq<Segment>, info: VideoInfo, t: int, chunkDuration: int, overlap: int)
    requires chunkDuration > overlap || t >= info.duration
    ensures forall i :: 0 <= i < |WindowsFrom(transcript, info, t, chunkDuration, overlap)| ==>
      IsWindowChunk(WindowsFrom(transcript, info, t, chunkDuration, overlap)[i], transcript, info, chunkDuration)
    ensures forall i :: 0 <= i < |WindowsFrom(transcript, info, t, chunkDuration, overlap)| ==>
      OnGrid(WindowsFrom(transcript, info, t, chunkDuration, overlap)[i].timestampStart, t, chunkDuration - overlap)
    decreases info.duration - t
  {
    if t < info.duration {
      var next := t + chunkDuration - overlap;
      ChunksAreWindows(transcript, info, next, chunkDuration, overlap);
      var end := WindowEnd(info, t, chunkDuration);
      var texts := Selected(transcript, t, end);
      var head := Window(transcript, info, t, end);
      var rest := WindowsFrom(transcript, info, next, chunkDuration, overlap);
      var chunks := WindowsFrom(transcript, info, t, chunkDuration, overlap);
      assert chunks == head + rest;
      forall i | 0 <= i < |chunks|
        ensures IsWindowChunk(chunks[i], transcript, info, chunkDuration)
        ensures OnGrid(chunks[i].timestampStart, t, chunkDuration - overlap)
      {
        if i < |head| {
          assert chunks[i] == WindowChunk(info, t, end, texts);
        } else {
          assert chunks[i] == rest[i - |head|];
          OnGridBack(rest[i - |head|].timestampStart, t, chunkDuration - overlap);
        }
      }
    }
  }

  /** The chunk of a window carries its window, its text's length and its video link. */
  lemma WindowChunkFields(info: VideoInfo, from: int, to: int, texts: seq<string>)
    ensures var c := WindowChunk(info, from, to, texts);
      && c.timestampStart == from && c.timestampEnd == to
      && c.text == Join(" ", texts) && c.charCount == |c.text|
      && c.videoUrl == info.url + "&t=" + IntToString(from) + "s"
      && c.videoId == info.videoId && c.videoTitle == info.title && c.channel == info.channel
  {
  }

  /** Chunk start times strictly increase along the list. */
  lemma {:induction false} StartsIncrease(transcript: seq<Segment>, info: VideoInfo, t: int, chunkDuration: int, overlap: int)
    requires chunkDuration > overlap || t >= info.duration
    ensures forall i, j :: 0 <= i < j < |WindowsFrom(transcript, info, t, chunkDuration, overlap)| ==>
      WindowsFrom(transcript, info, t, chunkDuration, overlap)[i].timestampStart
        < WindowsFrom(transcript, info, t, chunkDuration, overlap)[j].timestampStart
    decreases info.duration - t
  {
    if t < info.duration {
      var next := t + chunkDuration - overlap;
      StartsIncrease(transcript, info, next, chunkDuration, overlap);
      StartsFrom(transcript, info, next, chunkDuration, overlap);
      var end := WindowEnd(info, t, chunkDuration);
      var head := Window(transcript, info, t, end);
      var rest := WindowsFrom(transcript, info, next, chunkDuration, overlap);
      var chunks := WindowsFrom(transcript, info, t, chunkDuration, overlap);
      assert chunks == head + rest;
      forall i, j | 0 <= i < j < |chunks| ensures chunks[i].timestampStart < chunks[j].timestampStart {
        assert chunks[j] == rest[j - |head|];
        if i >= |head| {
          assert chunks[i] == rest[i - |head|];
        }
      }
    }
  }

  /** No chunk starts before `t`. */
  lemma {:induction false} StartsFrom(transcript: seq<Segment>, info: VideoInfo, t: int, chunkDuration: int, overlap: int)
    requires chunkDuration > overlap || t >= info.duration
    ensures forall i :: 0 <= i < |WindowsFrom(transcript, info, t, chunkDuration, overlap)| ==>
      t <= WindowsFrom(transcript, info, t, chunkDuration, overlap)[i].timestampStart
    decreases info.duration - t
  {
    if t < info.duration {
      var next := t + chunkDuration - overlap;
      StartsFrom(transcript, info, next, chunkDuration, overlap);
      var end := WindowEnd(info, t, chunkDuration);
      var head := Window(transcript, info, t, end);
      var rest := WindowsFrom(transcript, info, next, chunkDuration, overlap);
      var chunks := WindowsFrom(transcript, info, t, chunkDuration, overlap);
      assert chunks == head + rest;
      forall i | 0 <= i < |chunks| ensures t <= chunks[i].timestampStart {
        if i >= |head| {
          assert chunks[i] == rest[i - |head|];
        }
      }
    }
  }

  /** With a non-negative overlap, no segment is lost: every segment of positive duration
      that overlaps the video's span from `t` on lies, at least partly, in the window of
      some chunk, so its text is in that chunk's selection (`SelectedIsOverlapping`). */
  lemma {:induction false} EverySegmentIsCovered(transcript: seq<Segment>, info: VideoInfo, t: int, chunkDuration: int, overlap: int, k: int)
    requires 0 <= overlap < chunkDuration
    requires 0 <= k < |transcript|
    requires transcript[k].duration > 0.0
    requires transcript[k].start < info.duration as real
    requires transcript[k].start + transcript[k].duration > t as real
    requires t < info.duration
    ensures exists i ::
      && 0 <= i < |WindowsFrom(transcript, info, t, chunkDuration, overlap)|
      && Overlaps(transcript[k], WindowsFrom(transcript, info, t, chunkDuration, overlap)[i].timestampStart,
                  WindowsFrom(transcript, info, t, chunkDuration, overlap)[i].timestampEnd)
    decreases info.duration - t
  {
    var s := transcript[k];
    var end := WindowEnd(info, t, chunkDuration);
    var texts := Selected(transcript, t, end);
    var next := t + chunkDuration - overlap;
    var chunks := WindowsFrom(transcript, info, t, chunkDuration, overlap);
    var head := Window(transcript, info, t, end);
    var rest := WindowsFrom(transcript, info, next, chunkDuration, overlap);
    assert chunks == head + rest;
    if s.start < end as real {
      SelectedIsOverlapping(transcript, t, end);
      assert s.text in texts;
      assert chunks[0] == WindowChunk(info, t, end, texts);
      assert Overlaps(s, chunks[0].timestampStart, chunks[0].timestampEnd);
    } else {
      EverySegmentIsCovered(transcript, info, next, chunkDuration, overlap, k);
      var i :| 0 <= i < |rest| && Overlaps(s, rest[i].timestampStart, rest[i].timestampEnd);
      assert chunks[|head| + i] == rest[i];
    }
  }
}
