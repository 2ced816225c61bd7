# QueryVault backend core in Dafny

QueryVault is a retrieval-augmented question-answering backend. Users upload PDF
documents or YouTube videos. The backend cuts their text into chunks and stores the chunks
in a vector index. A question is answered by a language model from the chunks that match it
best.

This project models the parts of the backend that decide what text goes where:

- the in-memory conversation store (`ConversationManager`);
- the cleaning, meaningfulness test and sentence chunking of PDF text;
- the prompt that `generate_answer` builds from the context chunks;
- extracting a video id from a YouTube URL;
- the time-window chunking of a transcript;
- the way `answer_question` turns search matches into display sources and context chunks.

Modules:

- `Wrappers`: `Option` and `Result`.
- `Text`: the Python string operations the code relies on. These are `str.isspace`, `strip`, `split()`, `s[-k:]`, `join`, `str(int)` and `title()`.
- `Conversation`: the `ConversationManager` class. Its `conversations` dictionary is a `map` field that the methods update in place. The clock is an explicit `now` in whole seconds.
- `TextUtils`: `clean_text`, `is_text_meaningful`, and `chunk_text` as an imperative page and sentence loop. It is proved against a functional specification.
- `AnswerPrompt`: the source label, context blocks and prompt of `generate_answer`. The language model is a function parameter.
- `Youtube`: `extract_video_id` as a leftmost-match search, and `chunk_transcript_by_time` as its two nested loops. The loops are proved against a recursive window function.
- `Query`: `answer_question` with its `for` loop. Retrieval (embedding plus vector search) is a `Result` parameter.

The docstring of `chunk_text` calls `chunk_size` the "Max characters per chunk" (backend/app/utils.py:242-243). The code does not keep to that, and the model follows the code:

- A chunk of `chunk_text` is not bounded by `chunk_size + chunk_overlap`. A sentence longer than `chunk_size` is never cut (`TextUtils.LongSentenceIsNotCut`). The bound that holds is proved instead (`TextUtils.FillStaysBounded`, `TextUtils.PageChunksBounded`).
- `chunk_overlap == 0` does not drop the overlap. `s[-0:]` is the whole string, so the whole buffer is carried.
- `max_history == 0` does not empty the history. `messages[-0:]` keeps every message.

## Model

| member | source | states |
|---|---|---|
| Text.PyTail | backend/app/conversation.py:26 | `s[-k:]` is a suffix of `s`: `min(k, len)` items for `k >= 1`, all of `s` for `k == 0`, all but the first `-k` for `k < 0` |
| Text.PyTailAppend | backend/app/conversation.py:19-26 | cutting to the last `k` and then appending is the same as appending and then cutting |
| Text.PyTailAppendAll | backend/app/conversation.py:19-26 | the same for appending several messages at once |
| Text.StripStartSpec | backend/app/utils.py:49 | `lstrip` removes exactly the leading whitespace run; the result is empty iff the text is all whitespace |
| Text.StripEndSpec | backend/app/utils.py:49 | `rstrip` removes exactly the trailing whitespace run |
| Text.StripSpec | backend/app/utils.py:49 | `strip` keeps one contiguous piece of the input, with no whitespace at either end; empty iff the input is all whitespace |
| Text.Strip | backend/app/utils.py:49 | `strip()`; never longer than its input; `StripStartSpec` and `StripEndSpec` state that it removes exactly the leading and the trailing whitespace run, and `StripSpec` that what is left is one contiguous piece with non-whitespace ends |
| Text.Words | backend/app/utils.py:54 | `split()` yields non-empty whitespace-free words, and none iff the text is all whitespace |
| Text.WordsConcat | backend/app/utils.py:54 | the words of two texts that meet at whitespace are the words of the first followed by those of the second |
| Text.WordsStrip | backend/app/utils.py:49 | stripping the ends of a text does not change its words |
| Text.FilterOfWord | backend/app/utils.py:48 | deleting characters from a whitespace-free text leaves it whitespace-free |
| Text.Filter | backend/app/utils.py:48 | the characters a predicate keeps, in order; the result is no longer than the input and every character in it is kept |
| Text.FilterCounts | backend/app/utils.py:48 | filtering keeps each kept character exactly as often as it occurs, and no other character |
| Text.FilterConcat | backend/app/utils.py:48 | filtering a concatenation filters each part |
| Text.FilterOfFiltered | backend/app/utils.py:47-49 | filtering by a narrower predicate after a wider one is filtering by the narrower one alone |
| Text.JoinStartsWithFirst | backend/app/conversation.py:47 | a join starts with its first part |
| Text.Join | backend/app/conversation.py:47 | `sep.join(parts)`; `JoinStartsWithFirst` states that it starts with its first part, `JoinPlaces` where every part sits |
| Text.JoinPlaces | backend/app/conversation.py:47 | part `i` of a join sits at the offset of the `i` parts and `i` separators before it, the separator comes right before it when `i > 0`, and the last part ends the join |
| Text.NatToStringDigits | backend/app/youtube.py:194 | `str(n)` is a non-empty run of digits without a leading zero |
| Text.ParseNatToString | backend/app/youtube.py:194 | reading back the digits of `str(n)` gives `n` |
| Text.IntToStringRoundTrip | backend/app/youtube.py:194 | `int(str(n)) == n` for every integer |
| Text.IntToString | backend/app/youtube.py:194 | `str(n)` for an integer; `IntToStringRoundTrip` states that `int()` reads it back |
| Text.TitleFrom | backend/app/conversation.py:45 | `title()` keeps the length of its input |
| Text.TitleOfLowerWord | backend/app/conversation.py:45 | `"user".title()` is "User": the first letter is upper-cased and the rest is kept |
| Text.Title | backend/app/conversation.py:45 | `str.title()` on ASCII letters; `TitleFrom` keeps its length and `TitleOfLowerWord` shows "user" becoming "User" |
| Conversation.SourceTexts | backend/app/conversation.py:30 | one text per source, in order, with `''` for a source without text |
| Conversation.WithMessage | backend/app/conversation.py:10-31 | the record after one `add_message`; its properties are stated by `AddToNewSession`, `AddKeepsMostRecent`, `AddRollsContextChunks` and `AddPreservesBounds` |
| Conversation.AddToNewSession | backend/app/conversation.py:11-26 | an unknown id gets a record holding only the new message, stamped `now`, with context chunks from the new sources alone |
| Conversation.AddKeepsMostRecent | backend/app/conversation.py:19-27 | the history is the last `min(old+1, max_history)` of old ++ [new], in order, newest last, with the given role, content and sources (`None` stored as `[]`) |
| Conversation.AddRollsContextChunks | backend/app/conversation.py:29-31 | a non-empty source list appends its texts and keeps the last 10; no sources leave the chunks unchanged |
| Conversation.AddPreservesBounds | backend/app/conversation.py:19-31 | every add keeps at most 10 context chunks and at most `max_history` messages |
| Conversation.TurnMessages | backend/app/conversation.py:19-24 | one stored message per call, in call order |
| Conversation.ReplayKeepsLastMessages | backend/app/conversation.py:10-27 | after `k` calls the history is exactly the last `min(k, max_history)` messages added, and the update time is the last call's |
| Conversation.ContextLines | backend/app/conversation.py:43-45 | one line `Role: content` per message, in order |
| Conversation.ContextShowsLastThree | backend/app/conversation.py:44-47 | the context shows the last `min(3, n)` messages, oldest first |
| Conversation.FormatContext | backend/app/conversation.py:43-47 | the context text of a live session; `ContextLines`, `ContextShowsLastThree` and `ContextOfNonEmptyHistory` state its lines |
| Conversation.ContextOfNonEmptyHistory | backend/app/conversation.py:43-47 | a session with a message gives a non-empty context |
| Conversation.AppendTurn | backend/app/conversation.py:18-31 | the in-place updates of `add_message` produce the record `WithMessage` specifies |
| Conversation.ConversationManager.constructor | backend/app/conversation.py:5-8 | an empty store with the given history bound and a ttl of `ttl_minutes * 60` seconds |
| Conversation.ConversationManager.AddMessage | backend/app/conversation.py:10-31 | only the session's record changes, to the one `WithMessage` gives; the bounds are kept |
| Conversation.ConversationManager.GetConversationContext | backend/app/conversation.py:33-47 | "" and nothing changes for an unknown id; "" and the record is deleted when it is expired (`Expired`: more than `ttl` seconds since its last update); otherwise `FormatContext` of its messages and nothing changes |
| Conversation.ConversationManager.GetPreviousSources | backend/app/conversation.py:49-53 | the record's context chunks (at most 10), without an age check, or `[]` for an unknown id |
| Conversation.ConversationManager.ClearConversation | backend/app/conversation.py:55-57 | exactly the session's record is removed; other ids keep theirs |
| TextUtils.CollapseWhitespace | backend/app/utils.py:47 | no longer than the input; every whitespace character left is a plain space and every other character comes from the input; the result opens with a space exactly when the text opens a new whitespace run, ends with one exactly when the text ends in whitespace, and is empty only for an empty text or whitespace continuing a run |
| TextUtils.CollapseWhitespaceSpec | backend/app/utils.py:47 | the non-whitespace characters are kept exactly and in order, the words of `split()` are unchanged (each run between two words leaves a space), and no two spaces are left side by side; with the edge clauses of `CollapseWhitespace` this fixes the result: each whitespace run becomes exactly one space |
| TextUtils.CollapseKeepsWords | backend/app/utils.py:47 | collapsing whitespace neither glues two words together nor cuts one |
| TextUtils.CollapseConcat | backend/app/utils.py:47 | collapsing a text in two pieces, the second continuing the run the first left open, is collapsing it at once |
| TextUtils.RemoveSpecial | backend/app/utils.py:48 | keeps exactly the word characters, whitespace and listed punctuation, each as often as it occurs, and nothing else |
| TextUtils.RemoveSpecialWords | backend/app/utils.py:48 | the words after removal are the input's words with the removed characters taken out, a word made only of them disappearing; no two words are glued together |
| TextUtils.CleanText | backend/app/utils.py:46-49 | no longer than the input, made of word characters, plain spaces and the kept punctuation, no space at either end, every word character and kept punctuation mark of the input kept in order, and `split()` of the result is the input's words with the removed characters taken out (`KeptWords`), so words stay separated |
| TextUtils.CleanKeepsVisible | backend/app/utils.py:46-49 | the three cleaning steps keep every word character and kept punctuation mark, in order |
| TextUtils.CleanKeepsWords | backend/app/utils.py:46-49 | the three cleaning steps keep the input's words apart, each without its removed characters |
| TextUtils.StripFilter | backend/app/utils.py:49 | `strip()` loses no character that is not whitespace |
| TextUtils.StripKeepsCharacters | backend/app/utils.py:49 | `strip()` adds no character |
| TextUtils.ShortWordCount | backend/app/utils.py:59 | at most as many short words as words |
| TextUtils.IsTextMeaningful | backend/app/utils.py:51-62 | false for ""; true iff there are at least `min_words` words and at most 70% are short; the division by zero for blank text with `min_words <= 0` is a failure |
| TextUtils.BlankTextIsNotMeaningful | backend/app/utils.py:51-57 | blank text is never meaningful for a positive threshold |
| TextUtils.MeaningfulTextHasLongWords | backend/app/utils.py:56-62 | a meaningful text has at least `min_words` words and at least 30% of them longer than two characters |
| TextUtils.SplitSentences | backend/app/utils.py:261 | the sentence split yields at least one piece |
| TextUtils.OverlapText | backend/app/utils.py:272 | the carried text is the last `min(overlap, len)` characters, and the whole buffer for overlap 0 |
| TextUtils.Feed | backend/app/utils.py:263-276 | one turn of the sentence loop on the functional state; `FeedNumbered`, `FeedStaysWithin` and `FeedKeepsGroups` state what it does |
| TextUtils.FillPage | backend/app/utils.py:262-276 | the state after the sentence loop; `FillStaysBounded` bounds it and `SentencesEnterOnce` describes it by the sentences each buffer received |
| TextUtils.PageChunkTexts | backend/app/utils.py:262-285 | the chunk texts of one page; `PageChunksBounded` bounds them |
| TextUtils.ChunkPages | backend/app/utils.py:258-285 | all chunks, page after page; `ChunksAreNumberedInOrder` and `ChunkComesFromOnePage` state their numbering and their page |
| TextUtils.ChunkText | backend/app/utils.py:236-287 | the loops produce `ChunkPages`: pages in order, chunk indices 0, 1, 2, ... and `char_count == len(text)` |
| TextUtils.ChunkPage | backend/app/utils.py:261-285 | the sentence loop of one page produces that page's chunks numbered from the running index |
| TextUtils.FillSentences | backend/app/utils.py:262-276 | the loop over sentences emits the numbered chunks of the specification's fill and leaves its buffer as the current text |
| TextUtils.FeedSentence | backend/app/utils.py:263-276 | one turn of the loop turns the records and buffer of a state into those of `Feed` of that state: on overflow the stripped buffer is recorded under the running index and the buffer restarts from its overlap, otherwise the sentence joins it |
| TextUtils.FeedNumbered | backend/app/utils.py:264-276 | one sentence either closes the buffer as the next numbered chunk and restarts from the overlap and the sentence, or joins the buffer |
| TextUtils.ChunksAreNumberedInOrder | backend/app/utils.py:258-285 | chunk indices run 0, 1, 2, ... across all pages and every char count is its text's length |
| TextUtils.ChunkComesFromOnePage | backend/app/utils.py:260-285 | every chunk carries one page's number and a text of that page alone |
| TextUtils.LongestSentence | backend/app/utils.py:263 | the longest sentence length bounds every sentence |
| TextUtils.FeedStaysWithin | backend/app/utils.py:263-276 | one loop turn keeps buffer and emitted texts within a bound that admits the chunk size and overlap plus sentence |
| TextUtils.FillStaysBounded | backend/app/utils.py:262-276 | every chunk is within `max(chunk_size, overlap + 1 + longest sentence)` |
| TextUtils.PageChunksBounded | backend/app/utils.py:262-285 | when every sentence is shorter than `chunk_size`, every chunk is at most `chunk_size + chunk_overlap` long |
| TextUtils.LongSentenceIsNotCut | backend/app/utils.py:263-285 | a 6-character sentence with `chunk_size` 2 becomes one 6-character chunk |
| TextUtils.FeedKeepsGroups | backend/app/utils.py:263-276 | one loop turn adds its sentence to exactly one buffer's group and keeps the state equal to the replay of the groups |
| TextUtils.OverflowStartsGroup | backend/app/utils.py:264-274 | an overflowing sentence closes the buffer as the next emitted text and opens a new group whose buffer is the overlap, a space and the sentence |
| TextUtils.FitJoinsGroup | backend/app/utils.py:275-276 | a fitting sentence joins the running buffer's group after a space, and nothing is emitted |
| TextUtils.SentencesEnterOnce | backend/app/utils.py:261-276 | the groups of sentences the buffers received concatenate back to the page's sentences, and replaying them gives every emitted text (each the stripped buffer: the overlap of the previous buffer followed by its own sentences) and the running buffer |
| TextUtils.Replay | backend/app/utils.py:262-276 | rebuilding a page's state from the groups emits one text per closed group |
| AnswerPrompt.SourceLabel | backend/app/utils.py:354-366 | "PDF documents and YouTube videos" iff both kinds are present, "YouTube video transcripts" iff only YouTube, "PDF documents" iff no YouTube chunk |
| AnswerPrompt.NoChunksArePdf | backend/app/utils.py:357-366 | with no chunks the label is "PDF documents" |
| AnswerPrompt.Pad2 | backend/app/utils.py:377 | `:02d` gives two digits that read back as the number |
| AnswerPrompt.FormatTimestamp | backend/app/utils.py:377 | `f"{t // 60}:{t % 60:02d}"`; `TimestampRoundTrip` states its layout and that it reads back |
| AnswerPrompt.TimestampRoundTrip | backend/app/utils.py:377 | the timestamp is minutes, a colon and two digits of seconds, and reads back as the same number of seconds |
| AnswerPrompt.Block | backend/app/utils.py:370-386 | the context block of one chunk; `BlockLayout`, `YoutubeBlockNamesVideo` and `PdfBlockNamesPage` state where its parts sit |
| AnswerPrompt.BlockLayout | backend/app/utils.py:370-386 | each block opens with its kind's header and ends with a newline and the chunk's whole text |
| AnswerPrompt.YoutubeBlockNamesVideo | backend/app/utils.py:374-380 | a YouTube header holds the video title right after its prefix ("Unknown Video" when missing), then "' at ", the start timestamp as minutes and two-digit seconds ("0:00" when missing), then ":" and the newline |
| AnswerPrompt.PdfBlockNamesPage | backend/app/utils.py:381-386 | a PDF header holds the rendered page right after its prefix ("N/A" when missing), then ", Chunk " and the rendered chunk index ("0" when missing) |
| AnswerPrompt.RenderedNumberRoundTrip | backend/app/utils.py:382-385 | a number printed in a header is a run of digits, after an optional minus, that reads back as the number |
| AnswerPrompt.Blocks | backend/app/utils.py:369-386 | one block per chunk, in order |
| AnswerPrompt.Context | backend/app/utils.py:388 | the blocks joined by blank lines; `ContextOpensWithFirstBlock` states how it starts, `ContextPlacesBlocks` where every block sits |
| AnswerPrompt.ContextPlacesBlocks | backend/app/utils.py:388 | the block of chunk `i` appears in the context after the `i` blocks and `i` blank lines before it, a blank line comes right before it when `i > 0`, and the last block ends the context |
| AnswerPrompt.ContextOpensWithFirstBlock | backend/app/utils.py:388 | the context starts with the first chunk's block |
| AnswerPrompt.Prompt | backend/app/utils.py:391-405 | the prompt text; `PromptLayout` states where each of its parts sits |
| AnswerPrompt.AssembleLayout | backend/app/utils.py:391-405 | an assembled prompt is exactly the header, the source description, `":\n"`, the context, the question line and the closing text, each at its offset and in this order, with nothing else |
| AnswerPrompt.PromptLayout | backend/app/utils.py:391-405 | the prompt is the fixed header, the source label, `":\n"`, the whole context of all chunks, `"\n\nQuestion: "` with the question, and the instructions followed by "Answer:", each at its offset and in this order |
| AnswerPrompt.ApologyMarksFailure | backend/app/utils.py:407-416 | the reply/apology split around the model call at utils.py:407-416, modelled because `AnswerQuestion` returns this answer; the model call itself is a parameter. When no reply of the model opens like the apology, the answer opens with the apology exactly when the model call failed, followed by the error's message; a reply comes back unchanged |
| Youtube.IdAt | backend/app/youtube.py:30-38 | a captured group is 11 characters of `[a-zA-Z0-9_-]` |
| Youtube.AlternativeAt | backend/app/youtube.py:30 | the id of a matching alternative at a position, the first alternative's when it matches, or none iff none matches there |
| Youtube.Search | backend/app/youtube.py:36 | `re.search` finds the leftmost matching position, or none iff no position matches |
| Youtube.SearchId | backend/app/youtube.py:36-38 | `re.search(...).group(1)`: an 11-character id when the pattern matches; `SearchIdSpec` states when it matches |
| Youtube.SearchIdSpec | backend/app/youtube.py:36-38 | a pattern yields an id iff it matches somewhere, and the id is captured by a match |
| Youtube.ExtractVideoId | backend/app/youtube.py:27-44 | on success an 11-character id captured after one of the four prefixes; the ValueError with its message iff no prefix is followed by an id |
| Youtube.PatternsCoverPrefixes | backend/app/youtube.py:29-39 | some prefix matches iff one of the three patterns does |
| Youtube.FirstPatternTakesPriority | backend/app/youtube.py:35-38 | a `watch?v=` or `youtu.be/` match anywhere wins, and the id comes from the leftmost such match |
| Youtube.PatternsTriedInOrder | backend/app/youtube.py:29-38 | the id comes from the leftmost match of the first pattern; from the leftmost `/embed/` match only when the first pattern matches nowhere; from the leftmost `/v/` match only when neither of the others matches |
| Youtube.FirstAlternativesExclusive | backend/app/youtube.py:30 | `watch?v=` and `youtu.be/` never match at the same position |
| Youtube.WatchUrlRoundTrip | backend/app/youtube.py:30 | the id of `https://www.youtube.com/watch?v=<id>...` is `<id>` |
| Youtube.ShortUrlRoundTrip | backend/app/youtube.py:30 | the id of `https://youtu.be/<id>...` is `<id>` |
| Youtube.Selected | backend/app/youtube.py:179-185 | a window selects at most one text per segment |
| Youtube.SelectedIsOverlapping | backend/app/youtube.py:180-185 | a window's selection holds the text of every overlapping segment and nothing else |
| Youtube.SelectTexts | backend/app/youtube.py:179-185 | the segment loop collects the window's selection |
| Youtube.WindowChunks | backend/app/youtube.py:187-197 | a window yields its chunk exactly when its selection is not empty |
| Youtube.Window | backend/app/youtube.py:178-197 | the chunk of one window, or none when it selects nothing; `ChunksAreWindows` states its fields |
| Youtube.WindowsFrom | backend/app/youtube.py:177-199 | the chunks of the windows from time `t` on; `StartsFrom`, `StartsIncrease` and `EverySegmentIsCovered` state their order and coverage |
| Youtube.TimeChunks | backend/app/youtube.py:173-201 | all chunks of the transcript, from time 0; `ChunkTranscriptByTime` is proved to produce them |
| Youtube.ChunkTranscriptByTime | backend/app/youtube.py:167-201 | the loops produce the chunks of the windows at 0, step, 2 step, ... before the video's end |
| Youtube.ChunksAreWindows | backend/app/youtube.py:177-199 | every chunk starts on the grid of steps before the end, ends `chunk_duration` later or at the end, joins its non-empty selection with spaces, counts its characters and links to `url&t=<start>s` |
| Youtube.StartsIncrease | backend/app/youtube.py:177-199 | chunk start times strictly increase |
| Youtube.StartsFrom | backend/app/youtube.py:177-199 | no chunk of the windows from time `t` starts before `t` |
| Youtube.EverySegmentIsCovered | backend/app/youtube.py:177-199 | with `0 <= overlap < chunk_duration`, every segment of positive duration inside the video overlaps the window of some chunk |
| Query.Round3 | backend/app/query.py:73 | `round(score, 3)` is within 0.0005 of the score, a whole number of thousandths, and even on an exact tie |
| Query.DisplayText | backend/app/query.py:72 | the first 200 characters of the text followed by "...": at most 203 characters, ending in "..." |
| Query.DisplaySourceOf | backend/app/query.py:71-76 | the display source of one match; `SourcesFollowMatches` states its fields |
| Query.DisplaySources | backend/app/query.py:65-77 | one display source per match, the one at position `i` built from match `i` |
| Query.ContextChunks | backend/app/query.py:67-87 | one context chunk per match, the one at position `i` built from match `i` |
| Query.ContextChunkOf | backend/app/query.py:81-86 | the flattened context chunk of one match; `SourcesFollowMatches` and `QueryChunksArePdf` state its fields |
| Query.AnswerQuestion | backend/app/query.py:10-116 | an error result for a failed retrieval or a match without metadata; the fixed answer, no sources and no call to the model for zero matches; otherwise the generated answer and one source per match |
| Query.SourcesFollowMatches | backend/app/query.py:65-87 | one source and one context chunk per match in match order, with the full text, the defaults "N/A", "N/A" and 0, the rounded score and the truncated display text |
| Query.DisplayIsPrefixOfContext | backend/app/query.py:72-82 | a display text is at most 203 characters, ends in "...", and is otherwise a prefix of the context chunk's full text |
| Query.QueryChunksArePdf | backend/app/query.py:81-86 | context chunks carry no metadata, so each renders as a PDF block and the label is "PDF documents" |

## Left out

- Embedding, vector search, the language model and all I/O (PDF extraction, transcript download, HTTP routes, printing) are parameters or are not part of this model. `answer_question` takes the outcome of retrieval as a `Result`, and `generate_answer` takes the model as a function.
- Wall-clock reads are an explicit `now` in whole seconds. `datetime.utcnow()` and `datetime.now()` are treated as the same clock.
- Concurrency is left out: the code has none. The module-level store is one `ConversationManager` instance.
- `get_video_info` is not part of this model. Its `channel` field is filled from the duration there, which does not affect the chunking modelled here.
- Query.AnswerQuestion: `top_k` is not modelled, because it only reaches the search, which is a parameter. A match without a `score` key, and metadata values of unexpected types, are not modelled.
- Query.ContextChunkOf: the `filename` key of a context chunk is not modelled, because `generate_answer` never reads it.
- Query.Round3: rounds the exact value. Python rounds the nearest binary float, so on values near a tie the two can differ.
- AnswerPrompt.Render and Query.DisplaySourceOf: numbers come back from the vector index as floats, so Python prints a page 5 and chunk 3 as "Page 5.0, Chunk 3.0". The model treats pages and chunk indices as integers or texts and prints "Page 5, Chunk 3".
- Query.AnswerQuestion: the error for a match without `metadata` cannot arise through the program's own search, which always supplies that key (backend/app/db.py:93). It is modelled for matches from any search.
- Youtube.ChunkTranscriptByTime: requires `chunk_duration > overlap` when the video has a positive duration. Otherwise the loop of the original never ends. Segment times are exact reals, and `int()` of the integer window times is the identity.
- Text.IsSpace and TextUtils.IsWordChar: `\s` is Python's `str.isspace` set, but `\w` covers ASCII letters, digits and `_` only. Non-ASCII letters and digits are treated as special characters.
- Text.Title: only ASCII letters are cased.
- TextUtils.CleanText: does not state that no two spaces are adjacent. Removing special characters after collapsing whitespace can bring two spaces together, as in the original.
- TextUtils.SplitSentences: the pieces are modelled, but the chunking lemmas hold for any list of sentences.
- TextUtils.PageChunksBounded: stated for `chunk_overlap >= 1`. With `chunk_overlap == 0` the whole buffer is carried, so chunks grow without this bound.
- The float ratio `len(short_words) / len(words) > 0.7` is the exact integer comparison `10 * short > 7 * total`.
