/**
 * The chat_messages table. Rows are kept in insertion order; because every insert reads a
 * strictly increasing clock, that order is also ascending `createdAt`, so the ordered scans
 * are filters of the table in stored order.
 */
module MessageRepository {
  import opened Wrappers
  import opened Seqs
  import opened JavaText
  import opened ContentHash
  import opened ChatMessageModel

  /** The ordering relation every pair of rows keeps: earlier row, earlier creation, other id. */
  predicate CreatedBefore(a: ChatMessage, b: ChatMessage) {
    a.createdAt < b.createdAt && a.id != b.id
  }

  /** `findByChatSession_IdOrderByCreatedAtAsc`: the whole history of a session, deleted rows included. */
  function SessionHistory(rows: seq<ChatMessage>, sessionId: Id): (r: seq<ChatMessage>)
    ensures forall m :: m in r ==> m in rows && m.sessionId == sessionId
    ensures forall m :: m in rows && m.sessionId == sessionId ==> m in r
  {
    Filter(rows, (m: ChatMessage) => m.sessionId == sessionId)
  }

  /** `findByChatSession_IdAndDeletedFalseOrderByCreatedAtAsc`: the history without soft-deleted rows. */
  function ActiveHistory(rows: seq<ChatMessage>, sessionId: Id): (r: seq<ChatMessage>)
    ensures forall m :: m in r ==> m in rows && m.sessionId == sessionId && !m.deleted
    ensures forall m :: m in rows && m.sessionId == sessionId && !m.deleted ==> m in r
  {
    Filter(rows, (m: ChatMessage) => m.sessionId == sessionId && !m.deleted)
  }

  /** The paged forms: page `page` of `size` rows, cut from an ordered history. */
  function Page(history: seq<ChatMessage>, page: nat, size: nat): (r: seq<ChatMessage>)
    requires size > 0
    ensures |r| <= size
    ensures forall k :: 0 <= k < |r| ==> page * size + k < |history| && r[k] == history[page * size + k]
    ensures |r| == if |history| <= page * size then 0
                   else if |history| - page * size < size then |history| - page * size
                   else size
  {
    var from := if page * size < |history| then page * size else |history|;
    var to := if from + size < |history| then from + size else |history|;
    history[from..to]
  }

  /** A page is a contiguous slice of the history: it keeps its rows and their order. */
  lemma PageOfHistory(history: seq<ChatMessage>, page: nat, size: nat)
    requires size > 0
    ensures forall m :: m in Page(history, page, size) ==> m in history
    ensures Ordered(history, CreatedBefore) ==> Ordered(Page(history, page, size), CreatedBefore)
  {
    var from := if page * size < |history| then page * size else |history|;
    var to := if from + size < |history| then from + size else |history|;
    var r := history[from..to];
    assert Page(history, page, size) == r;
    if Ordered(history, CreatedBefore) {
      forall i, j | 0 <= i < j < |r| ensures CreatedBefore(r[i], r[j]) {
        assert r[i] == history[from + i] && r[j] == history[from + j];
      }
    }
  }

  /** `findByChatSession_IdAndSenderAndContentHash`, before the single-result check: every match. */
  function FindBySenderAndHash(rows: seq<ChatMessage>, sessionId: Id, sender: Sender, hash: string): (r: seq<ChatMessage>)
    ensures forall m :: m in r ==> m in rows && m.sessionId == sessionId && m.sender == sender && m.contentHash == hash
    ensures forall m :: m in rows && m.sessionId == sessionId && m.sender == sender && m.contentHash == hash ==> m in r
  {
    Filter(rows, (m: ChatMessage) => m.sessionId == sessionId && m.sender == sender && m.contentHash == hash)
  }

  /** `findByIdAndChatSession_Id`. */
  function FindInSession(rows: seq<ChatMessage>, sessionId: Id, messageId: Id): (r: Option<ChatMessage>)
    ensures r.Some? <==> exists k :: 0 <= k < |rows| && rows[k].id == messageId && rows[k].sessionId == sessionId
    ensures r.Some? ==> r.value in rows && r.value.id == messageId && r.value.sessionId == sessionId
  {
    if rows == [] then None
    else if rows[0].id == messageId && rows[0].sessionId == sessionId then Some(rows[0])
    else
      var r := FindInSession(rows[1..], sessionId, messageId);
      assert forall k :: 1 <= k < |rows| ==> rows[k] == rows[1..][k - 1];
      r
  }

  /** `existsByIdAndChatSession_Id`: agrees with the lookup. */
  function ExistsInSession(rows: seq<ChatMessage>, sessionId: Id, messageId: Id): (b: bool)
    ensures b <==> exists k :: 0 <= k < |rows| && rows[k].id == messageId && rows[k].sessionId == sessionId
    ensures b <==> FindInSession(rows, sessionId, messageId).Some?
  {
    exists k :: 0 <= k < |rows| && rows[k].id == messageId && rows[k].sessionId == sessionId
  }

  /** `findById`. */
  function FindById(rows: seq<ChatMessage>, id: Id): (r: Option<ChatMessage>)
    ensures r.Some? <==> exists k :: 0 <= k < |rows| && rows[k].id == id
    ensures r.Some? ==> r.value in rows && r.value.id == id
  {
    if rows == [] then None
    else if rows[0].id == id then Some(rows[0])
    else
      var r := FindById(rows[1..], id);
      assert forall k :: 1 <= k < |rows| ==> rows[k] == rows[1..][k - 1];
      r
  }

  /** `List.indexOf` on a list of entities, whose Lombok equality amounts to equal ids here. */
  function IndexOfId(s: seq<ChatMessage>, id: Id): (k: int)
    ensures -1 <= k < |s|
    ensures k >= 0 ==> s[k].id == id && forall j :: 0 <= j < k ==> s[j].id != id
    ensures k == -1 ==> forall j :: 0 <= j < |s| ==> s[j].id != id
  {
    if s == [] then -1
    else if s[0].id == id then 0
    else
      var k := IndexOfId(s[1..], id);
      if k == -1 then -1 else k + 1
  }

  /** The table after hard-deleting (`deleteById`) every row whose id is in `ids`. */
  function Without(rows: seq<ChatMessage>, ids: set<Id>): (r: seq<ChatMessage>)
    ensures forall m :: m in r ==> m in rows && m.id !in ids
    ensures forall m :: m in rows && m.id !in ids ==> m in r
  {
    Filter(rows, (m: ChatMessage) => m.id !in ids)
  }

  /** The table after `softDeleteBySessionId`: the session's rows flagged, nothing else touched. */
  function SoftDeleted(rows: seq<ChatMessage>, sessionId: Id): (r: seq<ChatMessage>)
    ensures |r| == |rows|
    ensures forall k :: 0 <= k < |rows| ==>
      r[k] == (if rows[k].sessionId == sessionId then rows[k].(deleted := true) else rows[k])
  {
    seq(|rows|, k requires 0 <= k < |rows| => if rows[k].sessionId == sessionId then rows[k].(deleted := true) else rows[k])
  }

  /** The active history is the full history with its deleted rows dropped, in the same order. */
  lemma {:induction false} ActiveHistoryIsFilteredHistory(rows: seq<ChatMessage>, sessionId: Id)
    ensures ActiveHistory(rows, sessionId) == Filter(SessionHistory(rows, sessionId), (m: ChatMessage) => !m.deleted)
  {
    if rows != [] {
      ActiveHistoryIsFilteredHistory(rows[1..], sessionId);
      var h := SessionHistory(rows[1..], sessionId);
      if rows[0].sessionId == sessionId {
        assert SessionHistory(rows, sessionId) == [rows[0]] + h;
        assert ([rows[0]] + h)[1..] == h;
      } else {
        assert SessionHistory(rows, sessionId) == h;
      }
    }
  }

  /** Both ordered scans return rows in ascending creation order. */
  lemma HistoriesAreChronological(rows: seq<ChatMessage>, sessionId: Id)
    requires Ordered(rows, CreatedBefore)
    ensures Ordered(SessionHistory(rows, sessionId), CreatedBefore)
    ensures Ordered(ActiveHistory(rows, sessionId), CreatedBefore)
  {
    FilterKeepsOrder(rows, (m: ChatMessage) => m.sessionId == sessionId, CreatedBefore);
    FilterKeepsOrder(rows, (m: ChatMessage) => m.sessionId == sessionId && !m.deleted, CreatedBefore);
  }

  /** The soft delete leaves no active row in the session and keeps every other session's view. */
  lemma {:induction false} SoftDeletedHistories(rows: seq<ChatMessage>, sessionId: Id, other: Id)
    ensures ActiveHistory(SoftDeleted(rows, sessionId), sessionId) == []
    ensures other != sessionId ==> SessionHistory(SoftDeleted(rows, sessionId), other) == SessionHistory(rows, other)
    ensures other != sessionId ==> ActiveHistory(SoftDeleted(rows, sessionId), other) == ActiveHistory(rows, other)
  {
    if rows != [] {
      SoftDeletedHistories(rows[1..], sessionId, other);
      assert SoftDeleted(rows, sessionId)[1..] == SoftDeleted(rows[1..], sessionId);
    }
  }

  /** Deleting no id keeps the table as it is. */
  lemma {:induction false} WithoutNothing(rows: seq<ChatMessage>)
    ensures Without(rows, {}) == rows
  {
    if rows != [] {
      WithoutNothing(rows[1..]);
      assert [rows[0]] + rows[1..] == rows;
    }
  }

  /** Two hard deletes in a row remove exactly the union of their ids. */
  lemma {:induction false} WithoutUnion(rows: seq<ChatMessage>, a: set<Id>, b: set<Id>)
    ensures Without(Without(rows, a), b) == Without(rows, a + b)
  {
    if rows != [] {
      WithoutUnion(rows[1..], a, b);
      var w := Without(rows[1..], a);
      if rows[0].id !in a {
        assert Without(rows, a) == [rows[0]] + w;
        assert ([rows[0]] + w)[1..] == w;
      } else {
        assert Without(rows, a) == w;
      }
    }
  }

  lemma SameStampsKeepOrder(rows: seq<ChatMessage>, k: nat, m: ChatMessage)
    requires Ordered(rows, CreatedBefore) && k < |rows|
    requires m.id == rows[k].id && m.createdAt == rows[k].createdAt
    ensures Ordered(rows[k := m], CreatedBefore)
  {
    var r := rows[k := m];
    forall a, b | 0 <= a < b < |r| ensures CreatedBefore(r[a], r[b]) {
      assert CreatedBefore(rows[a], rows[b]);
    }
  }

  lemma WithoutKeepsOrder(rows: seq<ChatMessage>, ids: set<Id>)
    requires Ordered(rows, CreatedBefore)
    ensures Ordered(Without(rows, ids), CreatedBefore)
  {
    FilterKeepsOrder(rows, (m: ChatMessage) => m.id !in ids, CreatedBefore);
  }

  lemma SoftDeletedKeepsOrder(rows: seq<ChatMessage>, sessionId: Id)
    requires Ordered(rows, CreatedBefore)
    ensures Ordered(SoftDeleted(rows, sessionId), CreatedBefore)
  {
    var r := SoftDeleted(rows, sessionId);
    forall a, b | 0 <= a < b < |r| ensures CreatedBefore(r[a], r[b]) {
      assert CreatedBefore(rows[a], rows[b]);
    }
  }

  /** Every row has an id below the counter, a creation time below the clock, and a matching hash. */
  ghost predicate AllStored(rows: seq<ChatMessage>, nextId: nat, clock: nat, sha256: string -> Digest) {
    forall k :: 0 <= k < |rows| ==> rows[k].id < nextId && rows[k].createdAt < clock && HashMatches(rows[k], sha256)
  }

  /** Appending a row stamped with the next id and the current clock keeps the rows chronological and stored. */
  lemma AppendKeepsStored(rows: seq<ChatMessage>, m: ChatMessage, nextId: nat, clock: nat, sha256: string -> Digest)
    requires Ordered(rows, CreatedBefore) && AllStored(rows, nextId, clock, sha256)
    requires m.id == nextId && m.createdAt == clock && HashMatches(m, sha256)
    ensures Ordered(rows + [m], CreatedBefore) && AllStored(rows + [m], nextId + 1, clock + 1, sha256)
    ensures m.id !in Ids(rows)
  {
    var r := rows + [m];
    forall i, j | 0 <= i < j < |r| ensures CreatedBefore(r[i], r[j]) {
      if j == |rows| {
        assert r[i] == rows[i];
      } else {
        assert r[i] == rows[i] && r[j] == rows[j];
      }
    }
  }

  /** Replacing a row by one with the same id and creation time and a matching hash keeps every row stored. */
  lemma SameStampsKeepStored(rows: seq<ChatMessage>, k: nat, m: ChatMessage, nextId: nat, clock: nat,
                             sha256: string -> Digest)
    requires AllStored(rows, nextId, clock, sha256) && k < |rows|
    requires m.id == rows[k].id && m.createdAt == rows[k].createdAt && HashMatches(m, sha256)
    ensures AllStored(rows[k := m], nextId, clock, sha256)
  {
  }

  lemma AllStoredOfSubset(rows: seq<ChatMessage>, r: seq<ChatMessage>, nextId: nat, clock: nat, sha256: string -> Digest)
    requires AllStored(rows, nextId, clock, sha256)
    requires forall m :: m in r ==> m in rows
    ensures AllStored(r, nextId, clock, sha256)
  {
    forall k | 0 <= k < |r|
      ensures r[k].id < nextId && r[k].createdAt < clock && HashMatches(r[k], sha256)
    {
      assert r[k] in r;
      var j :| 0 <= j < |rows| && rows[j] == r[k];
    }
  }

  /** How many rows belong to the session, counted from the back. */
  function SessionCount(rows: seq<ChatMessage>, sessionId: Id): nat {
    if rows == [] then 0
    else SessionCount(rows[..|rows| - 1], sessionId) + if rows[|rows| - 1].sessionId == sessionId then 1 else 0
  }

  /** The count is the length of the session's history. */
  lemma {:induction false} SessionCountIsHistoryLength(rows: seq<ChatMessage>, sessionId: Id)
    ensures SessionCount(rows, sessionId) == |SessionHistory(rows, sessionId)|
  {
    if rows != [] {
      var init, last := rows[..|rows| - 1], rows[|rows| - 1];
      SessionCountIsHistoryLength(init, sessionId);
      assert rows == init + [last];
      FilterAppend(init, [last], (m: ChatMessage) => m.sessionId == sessionId);
    }
  }

  lemma SoftDeletedKeepsStored(rows: seq<ChatMessage>, sessionId: Id, nextId: nat, clock: nat, sha256: string -> Digest)
    requires AllStored(rows, nextId, clock, sha256)
    ensures AllStored(SoftDeleted(rows, sessionId), nextId, clock, sha256)
  {
    var r := SoftDeleted(rows, sessionId);
    forall k | 0 <= k < |r|
      ensures r[k].id < nextId && r[k].createdAt < clock && HashMatches(r[k], sha256)
    {
      assert r[k].content == rows[k].content && r[k].contentHash == rows[k].contentHash;
    }
  }

  /** The row-by-row effect of the bulk update: flag each row of the session, counting matches. */
  method FlagSession(rows: seq<ChatMessage>, sessionId: Id) returns (r: seq<ChatMessage>, count: nat)
    ensures r == SoftDeleted(rows, sessionId)
    ensures count == |SessionHistory(rows, sessionId)|
  {
    r := rows;
    var i := 0;
    count := 0;
    while i < |r|
      invariant 0 <= i <= |r| == |rows|
      invariant forall k :: 0 <= k < i ==>
        r[k] == (if rows[k].sessionId == sessionId then rows[k].(deleted := true) else rows[k])
      invariant forall k :: i <= k < |r| ==> r[k] == rows[k]
      invariant count == SessionCount(rows[..i], sessionId)
    {
      assert rows[..i + 1][..i] == rows[..i];
      if r[i].sessionId == sessionId {
        r := r[i := r[i].(deleted := true)];
        count := count + 1;
      }
      i := i + 1;
    }
    assert rows[..i] == rows;
    SessionCountIsHistoryLength(rows, sessionId);
  }

  /** Ids of the rows, which the id generator keeps distinct. */
  ghost function Ids(rows: seq<ChatMessage>): set<Id> {
    set k | 0 <= k < |rows| :: rows[k].id
  }

  class MessageTable {
    var rows: seq<ChatMessage>
    var nextId: nat
    var clock: nat
    /** SHA-256 over the UTF-8 bytes of a string; deterministic, otherwise unknown. */
    const sha256: string -> Digest

    /** Chronological rows with distinct ids, all below the id counter and the clock, all hashed. */
    ghost predicate Valid()
      reads this
    {
      Ordered(rows, CreatedBefore) && AllStored(rows, nextId, clock, sha256)
    }

    constructor (sha256: string -> Digest)
      ensures Valid() && rows == [] && this.sha256 == sha256
    {
      rows, nextId, clock := [], 0, 0;
      this.sha256 := sha256;
    }

    /** `save` of a new entity: fresh id, creation time from the clock, `onCreate` hook. */
    method Insert(sessionId: Id, sender: Sender, content: string, context: Option<string>) returns (m: ChatMessage)
      requires Valid()
      modifies this
      ensures Valid()
      ensures rows == old(rows) + [m]
      ensures m.id !in Ids(old(rows))
      ensures forall k :: 0 <= k < |old(rows)| ==> old(rows)[k].createdAt < m.createdAt
      ensures m.sessionId == sessionId && m.sender == sender && m.context == context && !m.deleted
      ensures m.content == NormalizeText(content) && m.contentHash == Fingerprint(sha256, m.content)
    {
      var draft := ChatMessage(nextId, sessionId, sender, content, context, "", 0, false);
      m := OnCreate(draft, sha256, clock);
      AppendKeepsStored(rows, m, nextId, clock, sha256);
      rows := rows + [m];
      nextId, clock := nextId + 1, clock + 1;
    }

    /** `save` of a loaded entity: the `onUpdate` hook runs; `createdAt` is not updatable. */
    method Update(m: ChatMessage) returns (saved: ChatMessage)
      requires Valid()
      requires exists k :: 0 <= k < |rows| && rows[k].id == m.id
      modifies this
      ensures Valid()
      ensures var k := IndexOfId(old(rows), m.id);
        && 0 <= k < |old(rows)|
        && saved == OnUpdate(m.(createdAt := old(rows)[k].createdAt), sha256)
        && rows == old(rows)[k := saved]
      ensures nextId == old(nextId) && clock == old(clock)
    {
      var k := IndexOfId(rows, m.id);
      saved := OnUpdate(m.(createdAt := rows[k].createdAt), sha256);
      SameStampsKeepOrder(rows, k, saved);
      SameStampsKeepStored(rows, k, saved, nextId, clock, sha256);
      rows := rows[k := saved];
    }

    /** `deleteById`: a hard delete; an unknown id is ignored. */
    method DeleteById(id: Id)
      requires Valid()
      modifies this
      ensures Valid()
      ensures rows == Without(old(rows), {id})
      ensures nextId == old(nextId) && clock == old(clock)
    {
      WithoutKeepsOrder(rows, {id});
      var kept := Without(rows, {id});
      AllStoredOfSubset(rows, kept, nextId, clock, sha256);
      rows := kept;
    }

    /** `softDeleteBySessionId`: flag every row of the session; returns how many rows it matched. */
    method SoftDeleteBySessionId(sessionId: Id) returns (count: nat)
      requires Valid()
      modifies this
      ensures Valid()
      ensures rows == SoftDeleted(old(rows), sessionId)
      ensures count == |SessionHistory(old(rows), sessionId)|
      ensures nextId == old(nextId) && clock == old(clock)
    {
      var r;
      r, count := FlagSession(rows, sessionId);
      SoftDeletedKeepsOrder(rows, sessionId);
      SoftDeletedKeepsStored(rows, sessionId, nextId, clock, sha256);
      rows := r;
    }
  }
}
