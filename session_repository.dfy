/**
 * The chat_sessions table: the derived queries of the session repository as functions of
 * the stored rows, and the table itself, whose saves enforce the unique key
 * (user_id, title, is_deleted) and the optimistic-lock version.
 */
module SessionRepository {
  import opened Wrappers
  import opened Errors
  import opened Seqs
  import ChatMessageModel
  import opened ChatSessionModel

  /** `findByUserIdAndDeletedFalse`: the user's live sessions, in table order. */
  function ActiveSessionsOf(rows: seq<ChatSession>, userId: string): (r: seq<ChatSession>)
    ensures forall s :: s in r ==> s in rows && s.userId == userId && !s.deleted
    ensures forall s :: s in rows && s.userId == userId && !s.deleted ==> s in r
  {
    Filter(rows, (s: ChatSession) => s.userId == userId && !s.deleted)
  }

  /** `findByUserIdAndFavoriteTrueAndDeletedFalse`: the user's live favourite sessions. */
  function FavoriteSessionsOf(rows: seq<ChatSession>, userId: string): (r: seq<ChatSession>)
    ensures forall s :: s in r ==> s in rows && s.userId == userId && s.favorite && !s.deleted
    ensures forall s :: s in rows && s.userId == userId && s.favorite && !s.deleted ==> s in r
  {
    Filter(rows, (s: ChatSession) => s.userId == userId && s.favorite && !s.deleted)
  }

  /** The favourites listing is the live listing with the non-favourites dropped, in the same order. */
  lemma {:induction false} FavoritesAreFilteredActive(rows: seq<ChatSession>, userId: string)
    ensures FavoriteSessionsOf(rows, userId) == Filter(ActiveSessionsOf(rows, userId), (s: ChatSession) => s.favorite)
  {
    if rows != [] {
      FavoritesAreFilteredActive(rows[1..], userId);
      var a := ActiveSessionsOf(rows[1..], userId);
      if rows[0].userId == userId && !rows[0].deleted {
        assert ActiveSessionsOf(rows, userId) == [rows[0]] + a;
        assert ([rows[0]] + a)[1..] == a;
      } else {
        assert ActiveSessionsOf(rows, userId) == a;
      }
    }
  }

  /** Every live row of the user under a title, before the single-result check. */
  function TitleMatches(rows: seq<ChatSession>, userId: string, title: string): (r: seq<ChatSession>)
    ensures forall s :: s in r ==> s in rows && Key(s) == SessionKey(userId, title, false)
    ensures forall s :: s in rows && Key(s) == SessionKey(userId, title, false) ==> s in r
  {
    Filter(rows, (s: ChatSession) => s.userId == userId && s.title == title && !s.deleted)
  }

  /** `findByUserIdAndTitleAndDeletedFalse`: the live session of the user under that title, if any. */
  function FindActiveByTitle(rows: seq<ChatSession>, userId: string, title: string): (r: Option<ChatSession>)
    ensures r.Some? <==> exists k :: 0 <= k < |rows| && Key(rows[k]) == SessionKey(userId, title, false)
    ensures r.Some? ==> r.value in rows && Key(r.value) == SessionKey(userId, title, false)
  {
    var m := TitleMatches(rows, userId, title);
    if m == [] then None else assert m[0] in m; Some(m[0])
  }

  /** `existsByUserIdAndTitleAndDeletedFalse`: agrees with the lookup. */
  function ExistsActiveByTitle(rows: seq<ChatSession>, userId: string, title: string): (b: bool)
    ensures b <==> exists k :: 0 <= k < |rows| && Key(rows[k]) == SessionKey(userId, title, false)
    ensures b <==> FindActiveByTitle(rows, userId, title).Some?
  {
    FindActiveByTitle(rows, userId, title).Some?
  }

  /** `existsByUserId`: the user owns some session, deleted or not. */
  function ExistsByUserId(rows: seq<ChatSession>, userId: string): (b: bool)
    ensures b <==> exists k :: 0 <= k < |rows| && rows[k].userId == userId
  {
    if rows == [] then false
    else
      var b := rows[0].userId == userId || ExistsByUserId(rows[1..], userId);
      assert forall k :: 1 <= k < |rows| ==> rows[k] == rows[1..][k - 1];
      b
  }

  /** Position of the row with that id, or -1. */
  function IndexOfId(rows: seq<ChatSession>, id: ChatMessageModel.Id): (k: int)
    ensures -1 <= k < |rows|
    ensures k >= 0 ==> rows[k].id == id && forall j :: 0 <= j < k ==> rows[j].id != id
    ensures k == -1 ==> forall j :: 0 <= j < |rows| ==> rows[j].id != id
  {
    if rows == [] then -1
    else if rows[0].id == id then 0
    else
      var k := IndexOfId(rows[1..], id);
      if k == -1 then -1 else k + 1
  }

  /** `findById`: deleted sessions are found too. */
  function FindById(rows: seq<ChatSession>, id: ChatMessageModel.Id): (r: Option<ChatSession>)
    ensures r.Some? <==> exists k :: 0 <= k < |rows| && rows[k].id == id
    ensures r.Some? ==> r.value in rows && r.value.id == id
  {
    var k := IndexOfId(rows, id);
    if k < 0 then None else Some(rows[k])
  }

  /** The unique constraint uk_chat_session_user_title_deleted, together with distinct primary keys. */
  ghost predicate UniqueKeys(rows: seq<ChatSession>) {
    forall i, j :: 0 <= i < j < |rows| ==> Key(rows[i]) != Key(rows[j]) && rows[i].id != rows[j].id
  }

  /** Some stored row other than the one at `skip` already holds `key`. */
  predicate KeyTaken(rows: seq<ChatSession>, key: SessionKey, skip: int) {
    exists j :: 0 <= j < |rows| && j != skip && Key(rows[j]) == key
  }

  /** Under the unique key the single-result lookup never sees two live rows with one title. */
  lemma {:induction false} AtMostOneActivePerTitle(rows: seq<ChatSession>, userId: string, title: string)
    requires UniqueKeys(rows)
    ensures |TitleMatches(rows, userId, title)| <= 1
  {
    if rows != [] {
      var tail := rows[1..];
      assert UniqueKeys(tail) by {
        forall i, j | 0 <= i < j < |tail|
          ensures Key(tail[i]) != Key(tail[j]) && tail[i].id != tail[j].id
        {
          assert tail[i] == rows[i + 1] && tail[j] == rows[j + 1];
        }
      }
      AtMostOneActivePerTitle(tail, userId, title);
      var m := TitleMatches(tail, userId, title);
      if Key(rows[0]) == SessionKey(userId, title, false) {
        forall k | 0 <= k < |tail| ensures Key(tail[k]) != Key(rows[0]) {
          assert tail[k] == rows[k + 1];
        }
        FilterNone(tail, (s: ChatSession) => s.userId == userId && s.title == title && !s.deleted);
      }
    }
  }

  /** Every row has an id below the counter and `createdAt <= updatedAt < clock`. */
  ghost predicate AllStamped(rows: seq<ChatSession>, nextId: nat, clock: nat) {
    forall k :: 0 <= k < |rows| ==> rows[k].id < nextId && rows[k].createdAt <= rows[k].updatedAt < clock
  }

  /** A row's own key is held by no other row. */
  lemma OwnKeyNotTaken(rows: seq<ChatSession>, k: nat)
    requires UniqueKeys(rows) && k < |rows|
    ensures !KeyTaken(rows, Key(rows[k]), k)
  {
    forall j | 0 <= j < |rows| && j != k ensures Key(rows[j]) != Key(rows[k]) {
      if j < k {
        assert Key(rows[j]) != Key(rows[k]);
      } else {
        assert Key(rows[k]) != Key(rows[j]);
      }
    }
  }

  lemma UniqueKeysAfterReplace(rows: seq<ChatSession>, k: nat, s: ChatSession)
    requires UniqueKeys(rows) && k < |rows| && s.id == rows[k].id
    requires !KeyTaken(rows, Key(s), k)
    ensures UniqueKeys(rows[k := s])
  {
    var r := rows[k := s];
    forall i, j | 0 <= i < j < |r| ensures Key(r[i]) != Key(r[j]) && r[i].id != r[j].id {
      if i == k {
        assert Key(rows[j]) != Key(s);
      } else if j == k {
        assert Key(rows[i]) != Key(s);
      }
    }
  }

  class SessionTable {
    var rows: seq<ChatSession>
    var nextId: nat
    var clock: nat

    /** The unique key holds, ids are distinct and drawn from the counter, stamps from the clock. */
    ghost predicate Valid()
      reads this
    {
      UniqueKeys(rows) && AllStamped(rows, nextId, clock)
    }

    constructor ()
      ensures Valid() && rows == []
    {
      rows, nextId, clock := [], 0, 0;
    }

    /**
     * `save` of a new entity: the `onCreate` hook stamps both times from one clock reading and
     * the version starts at 0. A null title (the column is NOT NULL) or a taken key is an
     * integrity violation and stores nothing.
     */
    method Insert(userId: string, title: Option<string>, favorite: bool, deleted: bool)
      returns (r: Result<ChatSession, ServiceError>)
      requires Valid()
      modifies this
      ensures Valid()
      ensures r.Err? <==> title.None? || KeyTaken(old(rows), SessionKey(userId, title.value, deleted), -1)
      ensures r.Err? ==>
        r.error == IntegrityViolation && rows == old(rows) && nextId == old(nextId) && clock == old(clock)
      ensures r.Ok? ==>
        && rows == old(rows) + [r.value]
        && r.value == ChatSession(old(nextId), userId, title.value, 0, favorite, deleted, old(clock), old(clock))
    {
      if title.None? || KeyTaken(rows, SessionKey(userId, title.value, deleted), -1) {
        return Err(IntegrityViolation);
      }
      var s := OnCreate(ChatSession(nextId, userId, title.value, 0, favorite, deleted, 0, 0), clock);
      forall i, j | 0 <= i < j < |rows + [s]|
        ensures Key((rows + [s])[i]) != Key((rows + [s])[j]) && (rows + [s])[i].id != (rows + [s])[j].id
      {
        if j == |rows| {
          assert Key(rows[i]) != Key(s);
        }
      }
      rows := rows + [s];
      nextId, clock := nextId + 1, clock + 1;
      r := Ok(s);
    }

    /**
     * `save` of a loaded entity, under the `@Version` optimistic lock: an unknown id or a version
     * other than the stored one is rejected; a key held by another row is an integrity
     * violation; otherwise the version advances, the `onUpdate` hook refreshes `updatedAt`
     * and `createdAt` (not updatable) stays as stored.
     */
    method Update(s: ChatSession) returns (r: Result<ChatSession, ServiceError>)
      requires Valid()
      modifies this
      ensures Valid()
      ensures nextId == old(nextId)
      ensures r == Err(StaleVersion) <==>
        IndexOfId(old(rows), s.id) < 0 || old(rows)[IndexOfId(old(rows), s.id)].version != s.version
      ensures r == Err(IntegrityViolation) <==>
        && IndexOfId(old(rows), s.id) >= 0
        && old(rows)[IndexOfId(old(rows), s.id)].version == s.version
        && KeyTaken(old(rows), Key(s), IndexOfId(old(rows), s.id))
      ensures r.Err? ==> (r.error == StaleVersion || r.error == IntegrityViolation) && rows == old(rows) && clock == old(clock)
      ensures r.Ok? ==>
        var k := IndexOfId(old(rows), s.id);
        && 0 <= k
        && r.value == OnUpdate(s.(version := s.version + 1, createdAt := old(rows)[k].createdAt), old(clock))
        && rows == old(rows)[k := r.value]
    {
      var k := IndexOfId(rows, s.id);
      if k < 0 || rows[k].version != s.version {
        return Err(StaleVersion);
      }
      if KeyTaken(rows, Key(s), k) {
        return Err(IntegrityViolation);
      }
      var saved := OnUpdate(s.(version := s.version + 1, createdAt := rows[k].createdAt), clock);
      assert Key(saved) == Key(s);
      UniqueKeysAfterReplace(rows, k, saved);
      rows := rows[k := saved];
      clock := clock + 1;
      r := Ok(saved);
    }
  }
}
