/**
 * The session service: create-or-get by (user, title), lookup, edits under the duplicate-title
 * rule, the favourite flag, the idempotent soft delete that cascades to messages, and the
 * owner listings with their not-found rules. Each call is one atomic step over the tables;
 * a save that breaks the unique key fails, and where the service catches that failure it
 * reports Conflict.
 */
module SessionServiceImpl {
  import opened Wrappers
  import opened Errors
  import opened JavaText
  import opened ChatSessionModel
  import opened SessionRepository
  import MessageRepository

  /** `normalize`: null stays null, anything else is trimmed and has its whitespace runs collapsed. */
  function NormalizeTitle(title: Option<string>): (r: Option<string>)
    ensures r.None? <==> title.None?
    ensures r.Some? ==> r.value == Pieces(Trim(title.value), 0)
    ensures r.Some? ==> IsNormalized(r.value) && Visible(r.value) == Visible(title.value)
  {
    match title
    case None => None
    case Some(t) => NormalizeIsNormalized(t); NormalizeKeepsVisible(t); Some(NormalizeText(t))
  }

  /** Normalising a title twice is normalising it once. */
  lemma NormalizeTitleIdempotent(title: Option<string>)
    ensures NormalizeTitle(NormalizeTitle(title)) == NormalizeTitle(title)
  {
    if title.Some? {
      NormalizeIdempotent(title.value);
    }
  }

  /**
   * `createSession`: an existing live session of the user under the normalised title is
   * returned and nothing is stored; otherwise one new session is inserted. The only save that
   * can fail here is the one with a null title, which is reported as Conflict.
   */
  method CreateSession(sessions: SessionTable, userId: string, title: Option<string>)
    returns (r: Result<ChatSession, ServiceError>)
    requires sessions.Valid()
    modifies sessions
    ensures sessions.Valid()
    ensures r.Err? <==> title.None?
    ensures r.Err? ==> r.error == Conflict && sessions.rows == old(sessions.rows)
    ensures title.Some? && ExistsActiveByTitle(old(sessions.rows), userId, NormalizeText(title.value)) ==>
      && r.Ok?
      && sessions.rows == old(sessions.rows)
      && r.value in old(sessions.rows)
      && Key(r.value) == SessionKey(userId, NormalizeText(title.value), false)
    ensures title.Some? && !ExistsActiveByTitle(old(sessions.rows), userId, NormalizeText(title.value)) ==>
      && r.Ok?
      && sessions.rows == old(sessions.rows) + [r.value]
      && (forall k :: 0 <= k < |old(sessions.rows)| ==> old(sessions.rows)[k].id != r.value.id)
      && Key(r.value) == SessionKey(userId, NormalizeText(title.value), false)
      && !r.value.favorite && r.value.version == 0 && r.value.createdAt == r.value.updatedAt
  {
    var t := NormalizeTitle(title);
    if t.Some? {
      var existing := FindActiveByTitle(sessions.rows, userId, t.value);
      if existing.Some? {
        return Ok(existing.value);
      }
    }
    var saved := sessions.Insert(userId, t, false, false);
    r := if saved.Err? then Err(Conflict) else saved;
  }

  /** `getSession`: the stored session with that id, deleted or not. */
  method GetSession(sessions: SessionTable, id: ChatMessageModel.Id) returns (r: Result<ChatSession, ServiceError>)
    ensures r.Ok? <==> exists k :: 0 <= k < |sessions.rows| && sessions.rows[k].id == id
    ensures r.Ok? ==> r.value in sessions.rows && r.value.id == id
    ensures r.Err? ==> r.error == SessionNotFound
  {
    var found := FindById(sessions.rows, id);
    r := if found.Some? then Ok(found.value) else Err(SessionNotFound);
  }

  /** The duplicate-title rule: the normalised title is new for the session and another live session of the user holds it. */
  predicate DuplicateTitle(rows: seq<ChatSession>, id: ChatMessageModel.Id, title: string): (b: bool)
    ensures b <==>
      var k := IndexOfId(rows, id);
      k >= 0 && NormalizeText(title) != rows[k].title && KeyTaken(rows, SessionKey(rows[k].userId, NormalizeText(title), false), k)
  {
    var k := IndexOfId(rows, id);
    k >= 0 && NormalizeText(title) != rows[k].title && ExistsActiveByTitle(rows, rows[k].userId, NormalizeText(title))
  }

  /** The session as the edit leaves it before the save: null fields of the request keep their value. */
  function Edited(s: ChatSession, title: Option<string>, favorite: Option<bool>): (r: ChatSession)
    ensures r == s.(title := r.title, favorite := r.favorite)
    ensures title.None? ==> r.title == s.title
    ensures title.Some? ==> r.title == Pieces(Trim(title.value), 0) && IsNormalized(r.title)
    ensures favorite.None? ==> r.favorite == s.favorite
    ensures favorite.Some? ==> r.favorite == favorite.value
  {
    if title.Some? then NormalizeIsNormalized(title.value); s.(title := NormalizeText(title.value), favorite := if favorite.Some? then favorite.value else s.favorite)
    else s.(favorite := if favorite.Some? then favorite.value else s.favorite)
  }

  /** Outside the duplicate-title rule, a live session's edited key is held by no other row. */
  lemma LiveEditKeepsKeyFree(rows: seq<ChatSession>, id: ChatMessageModel.Id, title: Option<string>, favorite: Option<bool>)
    requires UniqueKeys(rows)
    requires IndexOfId(rows, id) >= 0
    requires title.Some? ==> !DuplicateTitle(rows, id, title.value)
    requires !rows[IndexOfId(rows, id)].deleted || title.None? || NormalizeText(title.value) == rows[IndexOfId(rows, id)].title
    ensures !KeyTaken(rows, Key(Edited(rows[IndexOfId(rows, id)], title, favorite)), IndexOfId(rows, id))
  {
    var k := IndexOfId(rows, id);
    var e := Edited(rows[k], title, favorite);
    if e.title == rows[k].title {
      OwnKeyNotTaken(rows, k);
      assert Key(e) == Key(rows[k]);
    } else {
      assert !ExistsActiveByTitle(rows, rows[k].userId, e.title);
    }
  }

  /**
   * `updateSession`: a non-null title is normalised and, under the duplicate-title rule,
   * refused with Conflict; a non-null favourite replaces the flag; the save advances the
   * version and refreshes `updatedAt`. A save that still breaks the unique key (possible only
   * for a deleted session) is reported as Conflict.
   */
  method UpdateSession(sessions: SessionTable, id: ChatMessageModel.Id, title: Option<string>, favorite: Option<bool>)
    returns (r: Result<ChatSession, ServiceError>)
    requires sessions.Valid()
    modifies sessions
    ensures sessions.Valid()
    ensures r.Err? ==> sessions.rows == old(sessions.rows) && (r.error == SessionNotFound || r.error == Conflict)
    ensures r == Err(SessionNotFound) <==> IndexOfId(old(sessions.rows), id) < 0
    ensures title.Some? && DuplicateTitle(old(sessions.rows), id, title.value) ==> r == Err(Conflict)
    ensures r == Err(Conflict) && !old(sessions.rows)[IndexOfId(old(sessions.rows), id)].deleted ==>
      title.Some? && DuplicateTitle(old(sessions.rows), id, title.value)
    ensures IndexOfId(old(sessions.rows), id) >= 0 && (title.None? || NormalizeText(title.value) == old(sessions.rows)[IndexOfId(old(sessions.rows), id)].title) ==>
      r.Ok?
    ensures r.Ok? ==>
      var k := IndexOfId(old(sessions.rows), id);
      && k >= 0
      && r.value == Edited(old(sessions.rows)[k], title, favorite).(version := old(sessions.rows)[k].version + 1, updatedAt := old(sessions.clock))
      && sessions.rows == old(sessions.rows)[k := r.value]
  {
    var k := IndexOfId(sessions.rows, id);
    if k < 0 {
      return Err(SessionNotFound);
    }
    var s := sessions.rows[k];
    if title.Some? && DuplicateTitle(sessions.rows, id, title.value) {
      return Err(Conflict);
    }
    if !s.deleted || title.None? || NormalizeText(title.value) == s.title {
      LiveEditKeepsKeyFree(sessions.rows, id, title, favorite);
    }
    var e := Edited(s, title, favorite);
    r := SaveEdit(sessions, e);
  }

  /** The save that ends `updateSession`: a loaded, edited session is stored, and a key clash is reported as Conflict. */
  method SaveEdit(sessions: SessionTable, e: ChatSession) returns (r: Result<ChatSession, ServiceError>)
    requires sessions.Valid()
    requires IndexOfId(sessions.rows, e.id) >= 0
    requires sessions.rows[IndexOfId(sessions.rows, e.id)].version == e.version
    requires sessions.rows[IndexOfId(sessions.rows, e.id)].createdAt == e.createdAt
    modifies sessions
    ensures sessions.Valid()
    ensures var rows, k := old(sessions.rows), IndexOfId(old(sessions.rows), e.id);
      && (r.Err? <==> KeyTaken(rows, Key(e), k))
      && (r.Err? ==> r.error == Conflict && sessions.rows == rows)
      && (r.Ok? ==> r.value == e.(version := e.version + 1, updatedAt := old(sessions.clock))
                    && sessions.rows == rows[k := r.value])
  {
    var saved := sessions.Update(e);
    assert saved.Err? ==> saved.error == IntegrityViolation;
    r := if saved.Err? then Err(Conflict) else saved;
  }

  /**
   * `renameSession`: like `updateSession` with a title and no favourite, except that a null
   * title fails (the comparison dereferences it) after the lookup.
   */
  method RenameSession(sessions: SessionTable, id: ChatMessageModel.Id, title: Option<string>)
    returns (r: Result<ChatSession, ServiceError>)
    requires sessions.Valid()
    modifies sessions
    ensures sessions.Valid()
    ensures r.Err? ==> sessions.rows == old(sessions.rows)
    ensures var rows, k := old(sessions.rows), IndexOfId(old(sessions.rows), id);
      && (k < 0 <==> r == Err(SessionNotFound))
      && (k >= 0 && title.None? ==> r == Err(NullTitle))
      && (k >= 0 && title.Some? && NormalizeText(title.value) != rows[k].title
          && ExistsActiveByTitle(rows, rows[k].userId, NormalizeText(title.value))
          ==> r == Err(Conflict))
      && (k >= 0 && title.Some? && NormalizeText(title.value) == rows[k].title ==> r.Ok?)
      && (k >= 0 && title.Some? && !rows[k].deleted && !ExistsActiveByTitle(rows, rows[k].userId, NormalizeText(title.value)) ==> r.Ok?)
      && (r.Ok? ==>
          && k >= 0
          && title.Some?
          && sessions.rows == rows[k := r.value]
          && r.value == rows[k].(title := NormalizeText(title.value), version := rows[k].version + 1,
                                 updatedAt := old(sessions.clock)))
  {
    var found := FindById(sessions.rows, id);
    if found.None? {
      return Err(SessionNotFound);
    }
    if title.None? {
      return Err(NullTitle);
    }
    r := UpdateSession(sessions, id, title, None);
  }

  /** `markFavorite`: sets the flag unconditionally; the key is untouched, so only a missing id fails. */
  method MarkFavorite(sessions: SessionTable, id: ChatMessageModel.Id, favorite: bool)
    returns (r: Result<ChatSession, ServiceError>)
    requires sessions.Valid()
    modifies sessions
    ensures sessions.Valid()
    ensures var rows, k := old(sessions.rows), IndexOfId(old(sessions.rows), id);
      && (r.Err? <==> k < 0)
      && (r.Err? ==> r.error == SessionNotFound && sessions.rows == rows)
      && (r.Ok? ==>
          && sessions.rows == rows[k := r.value]
          && r.value == rows[k].(favorite := favorite, version := rows[k].version + 1,
                                 updatedAt := old(sessions.clock)))
  {
    var found := FindById(sessions.rows, id);
    if found.None? {
      return Err(SessionNotFound);
    }
    ghost var k := IndexOfId(sessions.rows, id);
    assert found.value == sessions.rows[k];
    OwnKeyNotTaken(sessions.rows, k);
    assert Key(found.value.(favorite := favorite)) == Key(sessions.rows[k]);
    r := sessions.Update(found.value.(favorite := favorite));
  }

  /**
   * `deleteSession`: an unknown id fails; an already deleted session is left alone (no save,
   * no cascade); otherwise the session is flagged deleted and every message of it is
   * soft-deleted. The save is not guarded: when the user already has a deleted session with
   * the same title, the unique key refuses it and nothing changes.
   */
  method DeleteSession(sessions: SessionTable, messages: MessageRepository.MessageTable, id: ChatMessageModel.Id)
    returns (r: Result<(), ServiceError>)
    requires sessions.Valid() && messages.Valid()
    modifies sessions, messages
    ensures sessions.Valid() && messages.Valid()
    ensures var rows, k := old(sessions.rows), IndexOfId(old(sessions.rows), id);
      && (k < 0 ==> r == Err(SessionMissing))
      && (k >= 0 && rows[k].deleted ==> r.Ok?)
      && (k >= 0 && !rows[k].deleted && KeyTaken(rows, Key(rows[k].(deleted := true)), k) ==>
          r == Err(IntegrityViolation))
      && (k >= 0 && !rows[k].deleted && !KeyTaken(rows, Key(rows[k].(deleted := true)), k) ==> r.Ok?)
      && (r.Err? || rows[k].deleted ==>
          sessions.rows == rows && messages.rows == old(messages.rows))
      && (r.Ok? && !rows[k].deleted ==>
          && sessions.rows == rows[k := rows[k].(deleted := true, version := rows[k].version + 1,
                                                updatedAt := old(sessions.clock))]
          && messages.rows == MessageRepository.SoftDeleted(old(messages.rows), id))
  {
    var found := FindById(sessions.rows, id);
    if found.None? {
      return Err(SessionMissing);
    }
    if found.value.deleted {
      return Ok(());
    }
    ghost var k := IndexOfId(sessions.rows, id);
    assert found.value == sessions.rows[k];
    var saved := sessions.Update(found.value.(deleted := true));
    if saved.Err? {
      return Err(saved.error);
    }
    var _ := messages.SoftDeleteBySessionId(id);
    r := Ok(());
  }

  /**
   * `getUserSessions`: NotFound when the user owns no session at all, NotFound again when none
   * of them is live, otherwise exactly the user's live sessions in table order.
   */
  method GetUserSessions(sessions: SessionTable, userId: string) returns (r: Result<seq<ChatSession>, ServiceError>)
    ensures r == Err(UserNotFound) <==> !exists k :: 0 <= k < |sessions.rows| && sessions.rows[k].userId == userId
    ensures r == Err(NoActiveSessions) <==>
      && (exists k :: 0 <= k < |sessions.rows| && sessions.rows[k].userId == userId)
      && !exists k :: 0 <= k < |sessions.rows| && sessions.rows[k].userId == userId && !sessions.rows[k].deleted
    ensures r.Err? ==> r.error == UserNotFound || r.error == NoActiveSessions
    ensures r.Ok? ==> r.value == ActiveSessionsOf(sessions.rows, userId) && r.value != []
    ensures r.Ok? ==> forall s :: s in r.value <==> s in sessions.rows && s.userId == userId && !s.deleted
  {
    if !ExistsByUserId(sessions.rows, userId) {
      return Err(UserNotFound);
    }
    var live := ActiveSessionsOf(sessions.rows, userId);
    if live == [] {
      assert forall k :: 0 <= k < |sessions.rows| && sessions.rows[k].userId == userId ==> sessions.rows[k].deleted;
      return Err(NoActiveSessions);
    }
    assert live[0] in sessions.rows;
    r := Ok(live);
  }

  /**
   * `getFavoriteSessions`: NotFound when the user owns no session at all, NotFound again when
   * no live session is a favourite, otherwise exactly the user's live favourites.
   */
  method GetFavoriteSessions(sessions: SessionTable, userId: string) returns (r: Result<seq<ChatSession>, ServiceError>)
    ensures r == Err(UserNotFound) <==> !exists k :: 0 <= k < |sessions.rows| && sessions.rows[k].userId == userId
    ensures r == Err(NoFavoriteSessions) <==>
      && (exists k :: 0 <= k < |sessions.rows| && sessions.rows[k].userId == userId)
      && !exists k :: 0 <= k < |sessions.rows| && sessions.rows[k].userId == userId
           && sessions.rows[k].favorite && !sessions.rows[k].deleted
    ensures r.Err? ==> r.error == UserNotFound || r.error == NoFavoriteSessions
    ensures r.Ok? ==> r.value == FavoriteSessionsOf(sessions.rows, userId) && r.value != []
    ensures r.Ok? ==> forall s :: s in r.value <==> s in sessions.rows && s.userId == userId && s.favorite && !s.deleted
  {
    if !ExistsByUserId(sessions.rows, userId) {
      return Err(UserNotFound);
    }
    var favorites := FavoriteSessionsOf(sessions.rows, userId);
    if favorites == [] {
      assert forall k :: 0 <= k < |sessions.rows| && sessions.rows[k].userId == userId && sessions.rows[k].favorite ==>
        sessions.rows[k].deleted;
      return Err(NoFavoriteSessions);
    }
    assert favorites[0] in sessions.rows;
    r := Ok(favorites);
  }
}
