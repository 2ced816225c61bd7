/** The in-memory conversation store of backend/app/conversation.py: one record per
    session id, with a bounded message history, a rolling list of context texts taken
    from the sources of past answers, and the time of the last update, which a read
    checks against a time-to-live. The clock is an explicit `now` in whole seconds. */
module Conversation {
  import opened Wrappers
  import opened Text

  /** A source dictionary as the store sees it: only its 'text' key is ever read. */
  datatype Source = Source(text: Option<string>)

  /** One stored turn. `timestamp` is the clock reading when it was added. */
  datatype Message = Message(role: string, content: string, sources: seq<Source>, timestamp: int)

  datatype Session = Session(messages: seq<Message>, lastUpdated: int, contextChunks: seq<string>)

  /** `conv['context_chunks'][-10:]` */
  const ContextChunkLimit := 10

  /** `conv['messages'][-3:]` in `get_conversation_context` */
  const RecentTurns := 3

  /** The texts `add_message` takes from a list of sources, `''` for a source without one. */
  function SourceTexts(sources: seq<Source>): (texts: seq<string>)
    ensures |texts| == |sources|
    ensures forall i :: 0 <= i < |sources| ==> texts[i] == sources[i].text.GetOr("")
  {
    if sources == [] then [] else SourceTexts(sources[..|sources| - 1]) + [sources[|sources| - 1].text.GetOr("")]
  }

  /** The session record after `add_message(role, content, sources)` at time `now`:
      the record found (`prior`), or a fresh empty one, with the new turn appended,
      the message list cut back to `messages[-maxHistory:]`, the texts of a non-empty
      source list rolled into the last ten context chunks, and `now` as the update time. */
  function WithMessage(prior: Option<Session>, maxHistory: int, role: string, content: string,
                       sources: Option<seq<Source>>, now: int): Session
  {
    var base := prior.GetOr(Session([], now, []));
    var stored := sources.GetOr([]);
    var messages := PyTail(base.messages + [Message(role, content, stored, now)], maxHistory);
    var chunks := if stored != [] then PyTail(base.contextChunks + SourceTexts(stored), ContextChunkLimit)
                  else base.contextChunks;
    Session(messages, now, chunks)
  }

  /** The record stored under `id`, if any. */
  function Lookup(conversations: map<string, Session>, id: string): Option<Session> {
    if id in conversations then Some(conversations[id]) else None
  }

  /** The bounds every stored session keeps. With `maxHistory == 0` the message list
      is not bounded at all, because `messages[-0:]` is the whole list; with a negative
      `maxHistory` every append is cut away again, so the list stays empty. */
  predicate Bounded(s: Session, maxHistory: int) {
    && |s.contextChunks| <= ContextChunkLimit
    && (maxHistory >= 1 ==> |s.messages| <= maxHistory)
    && (maxHistory < 0 ==> s.messages == [])
  }

  /** The line `get_conversation_context` prints for one message. */
  function ContextLine(m: Message): string {
    Title(m.role) + ": " + m.content
  }

  function ContextLines(messages: seq<Message>): (lines: seq<string>)
    ensures |lines| == |messages|
    ensures forall i :: 0 <= i < |messages| ==> lines[i] == ContextLine(messages[i])
  {
    if messages == [] then []
    else ContextLines(messages[..|messages| - 1]) + [ContextLine(messages[|messages| - 1])]
  }

  /** The text `get_conversation_context` returns for a live session. */
  function FormatContext(messages: seq<Message>): string {
    Join("\n", ContextLines(PyTail(messages, RecentTurns)))
  }

  /** A session is expired strictly after `ttl` seconds without an update. */
  predicate Expired(s: Session, now: int, ttl: int) {
    now - s.lastUpdated > ttl
  }

  // ---------------------------------------------------------------------------
  // Properties of one add_message

  /** Adding to an unknown id creates a record that holds exactly the new message, with
      `now` as its update time, and context chunks only from the new sources. */
  lemma AddToNewSession(maxHistory: int, role: string, content: string, sources: Option<seq<Source>>, now: int)
    requires maxHistory >= 0
    ensures var s := WithMessage(None, maxHistory, role, content, sources, now);
      && s.messages == [Message(role, content, sources.GetOr([]), now)]
      && s.lastUpdated == now
      && s.contextChunks == PyTail(SourceTexts(sources.GetOr([])), ContextChunkLimit)
  {
    var stored := sources.GetOr([]);
    assert [] + [Message(role, content, stored, now)] == [Message(role, content, stored, now)];
    assert [] + SourceTexts(stored) == SourceTexts(stored);
  }

  /** With `maxHistory >= 1` the history keeps the newest `maxHistory` messages of the old
      history followed by the new one, in order, with the new message last. */
  lemma AddKeepsMostRecent(prior: Option<Session>, maxHistory: int, role: string, content: string,
                           sources: Option<seq<Source>>, now: int)
    requires maxHistory >= 1
    ensures var old_ := prior.GetOr(Session([], now, [])).messages;
      var s := WithMessage(prior, maxHistory, role, content, sources, now);
      && |s.messages| == Min(|old_| + 1, maxHistory)
      && s.messages == (old_ + [s.messages[|s.messages| - 1]])[|old_| + 1 - |s.messages|..]
      && s.messages[|s.messages| - 1] == Message(role, content, sources.GetOr([]), now)
      && s.lastUpdated == now
  {
  }

  /** A non-empty source list rolls its texts (`''` for a source without text) into the
      last ten context chunks; no sources, or an empty list, leave the chunks as they were. */
  lemma AddRollsContextChunks(prior: Option<Session>, maxHistory: int, role: string, content: string,
                              sources: Option<seq<Source>>, now: int)
    ensures var before := prior.GetOr(Session([], now, [])).contextChunks;
      var s := WithMessage(prior, maxHistory, role, content, sources, now);
      && (sources.None? || sources.value == [] ==> s.contextChunks == before)
      && (sources.Some? && sources.value != [] ==>
            && |s.contextChunks| == Min(|before| + |sources.value|, ContextChunkLimit)
            && s.contextChunks == (before + SourceTexts(sources.value))[|before| + |sources.value| - |s.contextChunks|..])
  {
  }

  /** Every add keeps a bounded session bounded, and creates a bounded one. */
  lemma AddPreservesBounds(prior: Option<Session>, maxHistory: int, role: string, content: string,
                           sources: Option<seq<Source>>, now: int)
    requires prior.Some? ==> Bounded(prior.value, maxHistory)
    ensures Bounded(WithMessage(prior, maxHistory, role, content, sources, now), maxHistory)
  {
  }

  // ---------------------------------------------------------------------------
  // Properties of a series of add_message calls on one session

  /** The arguments of one `add_message` call after the session id. */
  datatype Turn = Turn(role: string, content: string, sources: Option<seq<Source>>, now: int)

  function TurnMessage(t: Turn): Message {
    Message(t.role, t.content, t.sources.GetOr([]), t.now)
  }

  function TurnMessages(turns: seq<Turn>): (ms: seq<Message>)
    ensures |ms| == |turns|
    ensures forall i :: 0 <= i < |turns| ==> ms[i] == TurnMessage(turns[i])
  {
    if turns == [] then [] else TurnMessages(turns[..|turns| - 1]) + [TurnMessage(turns[|turns| - 1])]
  }

  /** The record of one session after the given calls, starting from no record. */
  function Replay(maxHistory: int, turns: seq<Turn>): Option<Session> {
    if turns == [] then None
    else
      var t := turns[|turns| - 1];
      Some(WithMessage(Replay(maxHistory, turns[..|turns| - 1]), maxHistory, t.role, t.content, t.sources, t.now))
  }

  /** After `k >= 1` calls the history is exactly the last `min(k, maxHistory)` messages
      added, oldest first, and the update time is that of the last call. */
  lemma {:induction false} ReplayKeepsLastMessages(maxHistory: int, turns: seq<Turn>)
    requires maxHistory >= 1
    requires turns != []
    ensures Replay(maxHistory, turns).Some?
    ensures Replay(maxHistory, turns).value.messages == PyTail(TurnMessages(turns), maxHistory)
    ensures |Replay(maxHistory, turns).value.messages| == Min(|turns|, maxHistory)
    ensures Replay(maxHistory, turns).value.lastUpdated == turns[|turns| - 1].now
  {
    var init, t := turns[..|turns| - 1], turns[|turns| - 1];
    assert TurnMessages(turns) == TurnMessages(init) + [TurnMessage(t)];
    if init == [] {
      assert TurnMessages(turns) == [] + [TurnMessage(t)];
    } else {
      ReplayKeepsLastMessages(maxHistory, init);
      PyTailAppend(TurnMessages(init), TurnMessage(t), maxHistory);
    }
  }

  // ---------------------------------------------------------------------------
  // Properties of get_conversation_context

  /** The context shows the last `min(3, n)` messages, oldest first, one line each. */
  lemma ContextShowsLastThree(messages: seq<Message>)
    ensures var recent := ContextLines(PyTail(messages, RecentTurns));
      && |recent| == Min(RecentTurns, |messages|)
      && forall i :: 0 <= i < |recent| ==>
           recent[i] == ContextLine(messages[|messages| - |recent| + i])
  {
  }

  /** A session with at least one message yields a non-empty context. */
  lemma ContextOfNonEmptyHistory(messages: seq<Message>)
    requires messages != []
    ensures FormatContext(messages) != ""
  {
    var lines := ContextLines(PyTail(messages, RecentTurns));
    JoinStartsWithFirst("\n", lines);
    assert |lines[0]| >= 2;
  }

  /** The updates `add_message` makes to the record it found or created: append the
      turn, re-slice the history, roll the source texts into the context chunks, and
      stamp the record with `now`. */
  method AppendTurn(conv: Session, maxHistory: int, role: string, content: string,
                    sources: Option<seq<Source>>, now: int) returns (updated: Session)
    ensures updated == WithMessage(Some(conv), maxHistory, role, content, sources, now)
  {
    var stored: seq<Source> := [];
    if sources.Some? {
      stored := sources.value;
    }
    var messages := conv.messages + [Message(role, content, stored, now)];
    messages := PyTail(messages, maxHistory);
    var chunks := conv.contextChunks;
    if stored != [] {
      chunks := chunks + SourceTexts(stored);
      chunks := PyTail(chunks, ContextChunkLimit);
    }
    updated := Session(messages, now, chunks);
  }

  /** The store, shared by all requests (one instance, `conversation_manager`). */
  class ConversationManager {
    var conversations: map<string, Session>
    const maxHistory: int
    /** `timedelta(minutes=ttl_minutes)` in seconds. */
    const ttl: int

    ghost predicate Valid()
      reads this
    {
      forall id :: id in conversations ==> Bounded(conversations[id], maxHistory)
    }

    constructor (maxHistory: int := 5, ttlMinutes: int := 30)
      ensures Valid()
      ensures conversations == map[]
      ensures this.maxHistory == maxHistory && ttl == ttlMinutes * 60
    {
      conversations := map[];
      this.maxHistory := maxHistory;
      ttl := ttlMinutes * 60;
    }

    /** `add_message`: only the record of `sessionId` changes. */
    method AddMessage(sessionId: string, role: string, content: string, sources: Option<seq<Source>>, now: int)
      requires Valid()
      modifies this
      ensures Valid()
      ensures conversations == old(conversations)[sessionId :=
        WithMessage(Lookup(old(conversations), sessionId), maxHistory, role, content, sources, now)]
    {
      ghost var before := conversations;
      ghost var prior := Lookup(conversations, sessionId);
      var conv: Session;
      if sessionId in conversations {
        conv := conversations[sessionId];
      } else {
        // the empty record that is inserted for an unknown id
        conv := Session([], now, []);
      }
      var updated := AppendTurn(conv, maxHistory, role, content, sources, now);
      assert updated == WithMessage(prior, maxHistory, role, content, sources, now);
      AddPreservesBounds(prior, maxHistory, role, content, sources, now);
      conversations := conversations[sessionId := updated];
      assert conversations == before[sessionId := WithMessage(prior, maxHistory, role, content, sources, now)];
      forall id | id in conversations ensures Bounded(conversations[id], maxHistory) {
        if id != sessionId {
          assert conversations[id] == before[id];
        }
      }
    }

    /** `get_conversation_context`: "" for an unknown id; an expired record is deleted
        and gives ""; a live one gives its last three turns and is left unchanged. */
    method GetConversationContext(sessionId: string, now: int) returns (context: string)
      requires Valid()
      modifies this
      ensures Valid()
      ensures sessionId !in old(conversations) ==> context == "" && conversations == old(conversations)
      ensures sessionId in old(conversations) && Expired(old(conversations)[sessionId], now, ttl) ==>
        context == "" && conversations == old(conversations) - {sessionId}
      ensures sessionId in old(conversations) && !Expired(old(conversations)[sessionId], now, ttl) ==>
        context == FormatContext(old(conversations)[sessionId].messages) && conversations == old(conversations)
    {
      if sessionId !in conversations {
        return "";
      }
      var conv := conversations[sessionId];
      if now - conv.lastUpdated > ttl {
        conversations := conversations - {sessionId};
        return "";
      }
      var recent := PyTail(conv.messages, RecentTurns);
      var parts: seq<string> := [];
      var i := 0;
      while i < |recent|
        invariant 0 <= i <= |recent|
        invariant parts == ContextLines(recent[..i])
      {
        assert recent[..i + 1][..i] == recent[..i];
        parts := parts + [ContextLine(recent[i])];
        i := i + 1;
      }
      assert recent[..i] == recent;
      context := Join("\n", parts);
    }

    /** `get_previous_sources`: reads the record without checking its age. */
    function GetPreviousSources(sessionId: string): (chunks: seq<string>)
      reads this
      ensures sessionId !in conversations ==> chunks == []
      ensures sessionId in conversations ==> chunks == conversations[sessionId].contextChunks
      ensures Valid() ==> |chunks| <= ContextChunkLimit
    {
      if sessionId in conversations then conversations[sessionId].contextChunks else []
    }

    /** `clear_conversation`: removes the record if there is one; other ids keep theirs. */
    method ClearConversation(sessionId: string)
      requires Valid()
      modifies this
      ensures Valid()
      ensures conversations == old(conversations) - {sessionId}
    {
      if sessionId in conversations {
        conversations := conversations - {sessionId};
      }
    }
  }
}
