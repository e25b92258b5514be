/** The chat_sessions record, its unique key and its persist/update hooks. */
module ChatSessionModel {
  import opened ChatMessageModel

  /** One row of chat_sessions. Timestamps are readings of the table's monotone clock. */
  datatype ChatSession = ChatSession(
    id: Id,
    userId: string,
    title: string,
    version: nat,
    favorite: bool,
    deleted: bool,
    createdAt: nat,
    updatedAt: nat)

  /** The columns of the unique constraint uk_chat_session_user_title_deleted. */
  datatype SessionKey = SessionKey(userId: string, title: string, deleted: bool)

  function Key(s: ChatSession): SessionKey {
    SessionKey(s.userId, s.title, s.deleted)
  }

  /** `@PrePersist onCreate`: one clock reading for both timestamps. */
  function OnCreate(s: ChatSession, now: nat): (r: ChatSession)
    ensures r.createdAt == r.updatedAt == now
    ensures r.(createdAt := s.createdAt, updatedAt := s.updatedAt) == s
  {
    s.(createdAt := now, updatedAt := now)
  }

  /** `@PreUpdate onUpdate`: refresh the update time only. */
  function OnUpdate(s: ChatSession, now: nat): (r: ChatSession)
    ensures r.updatedAt == now && r.createdAt == s.createdAt
    ensures r.(updatedAt := s.updatedAt) == s
  {
    s.(updatedAt := now)
  }
}
