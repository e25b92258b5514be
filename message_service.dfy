/**
 * The message service: append with USER-only deduplication, the completion round trip, the
 * targeted delete of a user turn and its reply, and the edit that sweeps the stale replies
 * of the edited turn and asks for a fresh one. Each call is one atomic step over the tables.
 */
module MessageServiceImpl {
  import opened Wrappers
  import opened Errors
  import opened Seqs
  import opened JavaText
  import opened ContentHash
  import opened ChatMessageModel
  import opened MessageRepository
  import opened Prompt
  import SessionRepository

  /** `loadInSession`: the message with that id, provided it belongs to the session. */
  method LoadInSession(messages: MessageTable, sessionId: Id, messageId: Id) returns (r: Result<ChatMessage, ServiceError>)
    ensures r.Ok? <==> ExistsInSession(messages.rows, sessionId, messageId)
    ensures r.Ok? ==> r.value == FindInSession(messages.rows, sessionId, messageId).value
    ensures r.Ok? ==> r.value in messages.rows && r.value.id == messageId && r.value.sessionId == sessionId
    ensures r.Err? ==> r.error == MessageNotInSession
  {
    var found := FindInSession(messages.rows, sessionId, messageId);
    r := if found.Some? then Ok(found.value) else Err(MessageNotInSession);
  }

  /** `getMessageById`. */
  method GetMessageById(messages: MessageTable, messageId: Id) returns (r: Result<ChatMessage, ServiceError>)
    ensures r.Ok? <==> exists k :: 0 <= k < |messages.rows| && messages.rows[k].id == messageId
    ensures r.Ok? ==> r.value in messages.rows && r.value.id == messageId
    ensures r.Err? ==> r.error == UnknownMessage
  {
    var found := FindById(messages.rows, messageId);
    r := if found.Some? then Ok(found.value) else Err(UnknownMessage);
  }

  /** `getMessagesBySession`: one page of the full history, deleted rows included, oldest first. */
  method GetMessagesBySession(messages: MessageTable, sessionId: Id, page: nat, size: nat) returns (r: seq<ChatMessage>)
    requires size > 0
    requires messages.Valid()
    ensures r == Page(SessionHistory(messages.rows, sessionId), page, size)
    ensures forall m :: m in r ==> m in messages.rows && m.sessionId == sessionId
    ensures Ordered(r, CreatedBefore)
  {
    var history := SessionHistory(messages.rows, sessionId);
    HistoriesAreChronological(messages.rows, sessionId);
    PageOfHistory(history, page, size);
    r := Page(history, page, size);
  }

  /**
   * The message log right after the USER turn of `getAIResponse`: either unchanged or grown by
   * one USER row of the session with the normalised text, and in both cases holding a USER row
   * of the session whose hash is that of the normalised text.
   */
  ghost predicate UserTurnStored(rows0: seq<ChatMessage>, rows1: seq<ChatMessage>, sessionId: Id,
                                 content: Option<string>, sha256: string -> Digest)
  {
    && (|| rows1 == rows0
        || (&& |rows1| == |rows0| + 1 && rows1[..|rows0|] == rows0
            && rows1[|rows0|].sender == USER && rows1[|rows0|].sessionId == sessionId
            && rows1[|rows0|].content == Normalize(content)))
    && exists k :: 0 <= k < |rows1| && rows1[k].sessionId == sessionId && rows1[k].sender == USER
                 && rows1[k].contentHash == Fingerprint(sha256, Normalize(content))
  }

  /** With every row hashed, no USER row of the session under a text's hash means none holds that text. */
  lemma NoHashMatchNoSameContent(rows: seq<ChatMessage>, sessionId: Id, text: string, sha256: string -> Digest)
    requires forall k :: 0 <= k < |rows| ==> HashMatches(rows[k], sha256)
    requires FindBySenderAndHash(rows, sessionId, USER, Fingerprint(sha256, text)) == []
    ensures forall k :: 0 <= k < |rows| && rows[k].sessionId == sessionId && rows[k].sender == USER ==>
      rows[k].content != text
  {
    forall k | 0 <= k < |rows| && rows[k].sessionId == sessionId && rows[k].sender == USER
      ensures rows[k].content != text
    {
      assert HashMatches(rows[k], sha256);
      assert rows[k] !in FindBySenderAndHash(rows, sessionId, USER, Fingerprint(sha256, text));
    }
  }

  /**
   * `addMessage`: an unknown session fails. For a USER message, a row of the session with the
   * same sender and content hash (deleted or not) is returned as it is; several such rows make
   * the single-result lookup fail. Otherwise one row is appended with the normalised content.
   */
  method AddMessage(sessions: SessionRepository.SessionTable, messages: MessageTable, sessionId: Id,
                    sender: Sender, content: Option<string>, context: Option<string>)
    returns (r: Result<ChatMessage, ServiceError>)
    requires messages.Valid()
    modifies messages
    ensures messages.Valid()
    ensures var known := SessionRepository.FindById(sessions.rows, sessionId).Some?;
      var dups := FindBySenderAndHash(old(messages.rows), sessionId, USER, Fingerprint(messages.sha256, Normalize(content)));
      && (!known ==> r == Err(UnknownSession))
      && (known && sender == USER && |dups| == 1 ==> r == Ok(dups[0]))
      && (known && sender == USER && |dups| > 1 ==> r == Err(NonUniqueResult))
      && (r.Err? || (sender == USER && |dups| == 1) ==> messages.rows == old(messages.rows))
      && (known && (sender != USER || dups == []) ==>
          && r.Ok?
          && messages.rows == old(messages.rows) + [r.value]
          && r.value.id !in Ids(old(messages.rows))
          && r.value.sessionId == sessionId && r.value.sender == sender && r.value.context == context
          && r.value.content == Normalize(content) && !r.value.deleted
          && r.value.contentHash == Fingerprint(messages.sha256, r.value.content))
    ensures sender == USER
      && (exists k :: 0 <= k < |old(messages.rows)| && old(messages.rows)[k].sessionId == sessionId
           && old(messages.rows)[k].sender == USER && old(messages.rows)[k].content == Normalize(content))
      ==> messages.rows == old(messages.rows)
    ensures r.Ok? && sender == USER ==> UserTurnStored(old(messages.rows), messages.rows, sessionId, content, messages.sha256)
  {
    if SessionRepository.FindById(sessions.rows, sessionId).None? {
      return Err(UnknownSession);
    }
    var normalized := Normalize(content);
    var hash := Sha256(messages.sha256, normalized);
    if sender == USER {
      var dups := FindBySenderAndHash(messages.rows, sessionId, USER, hash);
      if |dups| == 1 {
        assert dups[0] in messages.rows;
        return Ok(dups[0]);
      } else if |dups| > 1 {
        return Err(NonUniqueResult);
      }
      NoHashMatchNoSameContent(messages.rows, sessionId, normalized, messages.sha256);
    }
    NormalizeFixpoint(normalized);
    ghost var rows0 := messages.rows;
    var m := messages.Insert(sessionId, sender, normalized, context);
    assert messages.rows[..|rows0|] == rows0 && messages.rows[|rows0|] == m;
    r := Ok(m);
  }

  /**
   * `getAIResponse`: upsert the USER turn, render the whole ordered history (deleted rows
   * included) as the prompt, ask the provider, and append exactly one AI reply, a failure
   * becoming its sentinel text.
   */
  method GetAIResponse(sessions: SessionRepository.SessionTable, messages: MessageTable, sessionId: Id,
                       userMessage: Option<string>, provider: string -> Completion)
    returns (r: Result<ChatMessage, ServiceError>)
    requires messages.Valid()
    modifies messages
    ensures messages.Valid()
    ensures var known := SessionRepository.FindById(sessions.rows, sessionId).Some?;
      var dups := FindBySenderAndHash(old(messages.rows), sessionId, USER, Fingerprint(messages.sha256, Normalize(userMessage)));
      && (r.Ok? <==> known && |dups| <= 1)
      && (r.Err? ==> r.error == (if known then NonUniqueResult else UnknownSession))
    ensures r.Err? ==> messages.rows == old(messages.rows)
    ensures r.Ok? ==>
      var n := |messages.rows|;
      && n >= 1 && messages.rows[n - 1] == r.value
      && var before := messages.rows[..n - 1];
      && UserTurnStored(old(messages.rows), before, sessionId, userMessage, messages.sha256)
      && r.value.sender == AI && r.value.sessionId == sessionId && r.value.context.None? && !r.value.deleted
      && r.value.content == NormalizeText(ReplyText(provider(RenderPrompt(SessionHistory(before, sessionId)))))
    ensures r.Ok? ==>
      var dups := FindBySenderAndHash(old(messages.rows), sessionId, USER, Fingerprint(messages.sha256, Normalize(userMessage)));
      var before := messages.rows[..|messages.rows| - 1];
      && (|dups| == 1 ==> before == old(messages.rows))
      && (dups == [] ==>
          && |before| == |old(messages.rows)| + 1
          && before[|old(messages.rows)|].context.None? && !before[|old(messages.rows)|].deleted)
  {
    // The session lookup that opens `getAIResponse` is the one `addMessage` repeats on the same,
    // unchanged table; AddMessage makes it for both.
    var user := AddMessage(sessions, messages, sessionId, USER, userMessage, None);
    if user.Err? {
      return Err(user.error);
    }
    var ai := SaveReply(messages, sessionId, provider);
    r := Ok(ai);
  }

  /**
   * The tail shared by `getAIResponse` and `updateMessage`: render the session's history as
   * the prompt, ask the provider, and store its answer (or the error marker) as an AI message.
   */
  method SaveReply(messages: MessageTable, sessionId: Id, provider: string -> Completion) returns (ai: ChatMessage)
    requires messages.Valid()
    modifies messages
    ensures messages.Valid()
    ensures messages.rows == old(messages.rows) + [ai]
    ensures messages.rows[..|messages.rows| - 1] == old(messages.rows) && messages.rows[|messages.rows| - 1] == ai
    ensures ai.sender == AI && ai.sessionId == sessionId && ai.context.None? && !ai.deleted
    ensures ai.content == NormalizeText(ReplyText(provider(RenderPrompt(SessionHistory(old(messages.rows), sessionId)))))
  {
    var history := SessionHistory(messages.rows, sessionId);
    var reply := ReplyText(provider(RenderPrompt(history)));
    ai := messages.Insert(sessionId, AI, reply, None);
    assert messages.rows[..|messages.rows| - 1] == old(messages.rows);
  }

  /**
   * The rows `deleteMessage` removes, given the session's ordered history: the target, and
   * the row right after it when the target is a USER message and that row is an AI reply.
   * The position is taken as the code takes it, `indexOf` plus one.
   */
  function DeleteTargets(ordered: seq<ChatMessage>, target: ChatMessage): (r: set<Id>)
    ensures target.id in r && |r| <= 2
    ensures forall x :: x in r && x != target.id ==>
      target.sender == USER && exists j :: 0 <= j < |ordered| && ordered[j].sender == AI && ordered[j].id == x
  {
    var idx := IndexOfId(ordered, target.id);
    if target.sender == USER && idx + 1 < |ordered| && ordered[idx + 1].sender == AI
    then {target.id, ordered[idx + 1].id}
    else {target.id}
  }

  /** Ids strictly increase in creation order here, so the first row with an id is the only one. */
  lemma DistinctIds(rows: seq<ChatMessage>, j: nat)
    requires Ordered(rows, CreatedBefore) && j < |rows|
    ensures IndexOfId(rows, rows[j].id) == j
  {
    forall i | 0 <= i < j ensures rows[i].id != rows[j].id {
      assert CreatedBefore(rows[i], rows[j]);
    }
  }

  /**
   * Within a chronological history, `deleteMessage` removes the target and at most one more
   * row: the one recorded right after it, when the target is USER and that row is AI.
   */
  lemma DeleteTargetsAreTurnAndReply(ordered: seq<ChatMessage>, j: nat, x: Id)
    requires Ordered(ordered, CreatedBefore) && j < |ordered|
    ensures x in DeleteTargets(ordered, ordered[j]) <==>
      || x == ordered[j].id
      || (ordered[j].sender == USER && j + 1 < |ordered| && ordered[j + 1].sender == AI && x == ordered[j + 1].id)
    ensures |DeleteTargets(ordered, ordered[j])| <= 2
  {
    DistinctIds(ordered, j);
  }

  /**
   * `deleteMessage`: a message outside the session fails; otherwise the target is hard-deleted,
   * together with the AI reply right after it when the target is a USER message.
   */
  method DeleteMessage(messages: MessageTable, sessionId: Id, messageId: Id) returns (r: Result<(), ServiceError>)
    requires messages.Valid()
    modifies messages
    ensures messages.Valid()
    ensures var found := FindInSession(old(messages.rows), sessionId, messageId);
      && (found.None? ==> r == Err(MessageNotInSession) && messages.rows == old(messages.rows))
      && (found.Some? ==>
          && r.Ok?
          && messages.rows == Without(old(messages.rows), DeleteTargets(SessionHistory(old(messages.rows), sessionId), found.value)))
  {
    var loaded := LoadInSession(messages, sessionId, messageId);
    if loaded.Err? {
      return Err(loaded.error);
    }
    var target := loaded.value;
    ghost var rows0 := messages.rows;
    var reply := ReplyAfter(messages, target);
    if reply.Some? {
      messages.DeleteById(reply.value.id);
      WithoutUnion(rows0, {reply.value.id}, {target.id});
      assert {reply.value.id} + {target.id} == {target.id, reply.value.id};
    }
    messages.DeleteById(target.id);
    r := Ok(());
  }

  /**
   * The AI reply that directly follows a USER message in its session's history,
   * which deleting that message removes with it.
   */
  method ReplyAfter(messages: MessageTable, target: ChatMessage) returns (reply: Option<ChatMessage>)
    ensures reply.Some? ==> reply.value.sender == AI && reply.value in SessionHistory(messages.rows, target.sessionId)
    ensures DeleteTargets(SessionHistory(messages.rows, target.sessionId), target)
      == if reply.Some? then {target.id, reply.value.id} else {target.id}
  {
    reply := None;
    if target.sender == USER {
      var ordered := SessionHistory(messages.rows, target.sessionId);
      var idx := IndexOfId(ordered, target.id);
      if idx + 1 < |ordered| && ordered[idx + 1].sender == AI {
        reply := Some(ordered[idx + 1]);
      }
    }
  }

  /** USER and SYSTEM messages open a new turn, which ends the sweep. */
  predicate StartsTurn(m: ChatMessage) {
    m.sender == USER || m.sender == SYSTEM
  }

  /** The first position at or after `from` that opens a new turn, or the end of the history. */
  function StopIndex(ordered: seq<ChatMessage>, from: nat): (j: nat)
    requires from <= |ordered|
    ensures from <= j <= |ordered|
    ensures forall i :: from <= i < j ==> !StartsTurn(ordered[i])
    ensures j < |ordered| ==> StartsTurn(ordered[j])
    decreases |ordered| - from
  {
    if from == |ordered| || StartsTurn(ordered[from]) then from else StopIndex(ordered, from + 1)
  }

  /** Ids of the AI rows at positions strictly between `idx` and `to`. */
  function Swept(ordered: seq<ChatMessage>, idx: int, to: nat): set<Id>
    requires to <= |ordered|
  {
    set j | 0 <= j < to && idx < j && ordered[j].sender == AI :: ordered[j].id
  }

  /** The rows the edit sweep deletes: the AI replies after the edited message, up to the next turn. */
  function SweepIds(ordered: seq<ChatMessage>, idx: int): (r: set<Id>)
    requires idx < |ordered|
    ensures idx < 0 ==> r == {}
    ensures forall x :: x in r ==> exists j :: idx < j < |ordered| && ordered[j].sender == AI && ordered[j].id == x
  {
    if idx < 0 then {} else Swept(ordered, idx, StopIndex(ordered, idx + 1))
  }

  /**
   * In a chronological history, the sweep after position `idx` removes a row exactly when it
   * is an AI reply recorded after `idx` and before the next USER or SYSTEM message: rows
   * before the edited message, from the next turn on, and ASSISTANT rows are all kept.
   */
  lemma SweepRemovesStaleReplies(ordered: seq<ChatMessage>, idx: nat, j: nat)
    requires Ordered(ordered, CreatedBefore) && idx < |ordered| && j < |ordered|
    ensures ordered[j].id in SweepIds(ordered, idx) <==>
      idx < j < StopIndex(ordered, idx + 1) && ordered[j].sender == AI
  {
    if ordered[j].id in SweepIds(ordered, idx) {
      var i :| idx < i < StopIndex(ordered, idx + 1) && ordered[i].sender == AI && ordered[i].id == ordered[j].id;
      DistinctIds(ordered, i);
      DistinctIds(ordered, j);
    }
  }

  lemma SweptStep(ordered: seq<ChatMessage>, idx: int, i: nat)
    requires i < |ordered|
    ensures Swept(ordered, idx, i + 1) ==
      Swept(ordered, idx, i) + (if idx < i && ordered[i].sender == AI then {ordered[i].id} else {})
  {
  }

  /** Some AI row of the session carries that id, so the sweep may remove rows with it. */
  ghost predicate IsSweepable(rows: seq<ChatMessage>, sessionId: Id, id: Id) {
    exists a :: a in rows && a.sessionId == sessionId && a.sender == AI && a.id == id
  }

  /** The table after the edit's save and sweep, before the fresh reply is appended. */
  function AfterSweep(edited: seq<ChatMessage>, sessionId: Id, messageId: Id): (r: seq<ChatMessage>)
    ensures forall m :: m in r ==> m in edited
    ensures forall m :: m in edited && !IsSweepable(edited, sessionId, m.id) ==> m in r
  {
    var ordered := SessionHistory(edited, sessionId);
    Without(edited, SweepIds(ordered, IndexOfId(ordered, messageId)))
  }

  /**
   * The loop of `updateMessage`: walk the ordered history from just after the edited message,
   * stop at the first USER or SYSTEM message, and hard-delete every AI message passed on the way.
   */
  method SweepStaleReplies(messages: MessageTable, ordered: seq<ChatMessage>, idx: nat)
    requires messages.Valid() && idx < |ordered|
    modifies messages
    ensures messages.Valid()
    ensures messages.rows == Without(old(messages.rows), SweepIds(ordered, idx))
    ensures messages.nextId == old(messages.nextId) && messages.clock == old(messages.clock)
  {
    ghost var edited := messages.rows;
    var i := idx + 1;
    ghost var swept: set<Id> := {};
    assert Swept(ordered, idx, i) == swept;
    WithoutNothing(edited);
    while i < |ordered|
      invariant idx + 1 <= i <= |ordered|
      invariant StopIndex(ordered, i) == StopIndex(ordered, idx + 1)
      invariant swept == Swept(ordered, idx, i)
      invariant messages.Valid()
      invariant messages.rows == Without(edited, swept)
      invariant messages.nextId == old(messages.nextId) && messages.clock == old(messages.clock)
    {
      var next := ordered[i];
      if StartsTurn(next) {
        break;
      }
      SweptStep(ordered, idx, i);
      if next.sender == AI {
        WithoutUnion(edited, swept, {next.id});
        messages.DeleteById(next.id);
        swept := swept + {next.id};
      }
      i := i + 1;
    }
    assert i == StopIndex(ordered, i);
  }

  /**
   * `updateMessage`: only a USER message of the session can be edited; content that normalises
   * to the stored content is a no-op. Otherwise the new content is saved, the stale AI replies
   * of that turn are hard-deleted, and one fresh AI reply to the remaining history is
   * appended; the edited message is returned.
   */
  method UpdateMessage(messages: MessageTable, sessionId: Id, messageId: Id, newContent: Option<string>,
                       provider: string -> Completion)
    returns (r: Result<ChatMessage, ServiceError>)
    requires messages.Valid()
    modifies messages
    ensures messages.Valid()
    ensures var found := FindInSession(old(messages.rows), sessionId, messageId);
      && (found.None? ==> r == Err(MessageNotInSession))
      && (found.Some? && found.value.sender != USER ==> r == Err(OnlyUserEditable))
      && (found.Some? && found.value.sender == USER && Normalize(newContent) == found.value.content ==>
            r == Ok(found.value))
      && (r.Err? || (found.Some? && Normalize(newContent) == found.value.content) ==>
            messages.rows == old(messages.rows))
      && (found.Some? && found.value.sender == USER && Normalize(newContent) != found.value.content ==>
          && r.Ok?
          && var k := IndexOfId(old(messages.rows), messageId);
          && 0 <= k < |old(messages.rows)|
          && var edited := old(messages.rows)[k := r.value];
          && var kept := AfterSweep(edited, sessionId, messageId);
          && 0 <= k < |old(messages.rows)|
          && r.value == old(messages.rows)[k].(content := Normalize(newContent),
                                                contentHash := Fingerprint(messages.sha256, Normalize(newContent)))
          && |messages.rows| == |kept| + 1
          && messages.rows[..|kept|] == kept
          && var ai := messages.rows[|kept|];
          && ai.sender == AI && ai.sessionId == sessionId && ai.context.None? && !ai.deleted
          && ai.content == NormalizeText(ReplyText(provider(RenderPrompt(SessionHistory(kept, sessionId))))))
  {
    var loaded := LoadInSession(messages, sessionId, messageId);
    if loaded.Err? {
      return Err(loaded.error);
    }
    var message := loaded.value;
    if message.sender != USER {
      return Err(OnlyUserEditable);
    }
    var normalized := Normalize(newContent);
    if normalized == message.content {
      return Ok(message);
    }
    ghost var k := IndexOfId(messages.rows, messageId);
    assert message == messages.rows[k] by {
      var j :| 0 <= j < |messages.rows| && messages.rows[j] == message;
      DistinctIds(messages.rows, j);
    }
    NormalizeFixpoint(normalized);
    var updated := messages.Update(message.(content := normalized));
    RefreshReplies(messages, updated, provider);
    r := Ok(updated);
  }

  /**
   * The tail of `updateMessage` once the edit is saved: sweep the stale AI replies after the
   * edited message, then ask the provider again over what is left and store its answer.
   */
  method RefreshReplies(messages: MessageTable, updated: ChatMessage, provider: string -> Completion)
    requires messages.Valid()
    modifies messages
    ensures messages.Valid()
    ensures var kept := AfterSweep(old(messages.rows), updated.sessionId, updated.id);
      && |messages.rows| == |kept| + 1
      && messages.rows[..|kept|] == kept
      && var ai := messages.rows[|kept|];
      && ai.sender == AI && ai.sessionId == updated.sessionId && ai.context.None? && !ai.deleted
      && ai.content == NormalizeText(ReplyText(provider(RenderPrompt(SessionHistory(kept, updated.sessionId)))))
  {
    ghost var edited := messages.rows;
    var ordered := SessionHistory(messages.rows, updated.sessionId);
    var idx := IndexOfId(ordered, updated.id);
    if idx >= 0 {
      SweepStaleReplies(messages, ordered, idx);
    } else {
      WithoutNothing(edited);
    }
    ghost var kept := messages.rows;
    var _ := SaveReply(messages, updated.sessionId, provider);
    assert messages.rows[..|kept|] == kept;
  }
}
