/** The chat_messages record, its sender tag and its persist/update hooks. */
module ChatMessageModel {
  import opened Wrappers
  import opened JavaText
  import opened ContentHash

  /** A generated UUID, modelled as a number drawn from a counter. */
  type Id = nat

  /** The closed set of sender tags. */
  datatype Sender = USER | ASSISTANT | SYSTEM | AI

  /** The enum constant's name, which is how a sender is printed into a prompt. */
  function SenderName(s: Sender): (r: string)
    ensures |r| >= 2 && '\n' !in r
  {
    match s
    case USER => "USER"
    case ASSISTANT => "ASSISTANT"
    case SYSTEM => "SYSTEM"
    case AI => "AI"
  }

  /** One row of chat_messages. `createdAt` is a reading of the table's monotone clock. */
  datatype ChatMessage = ChatMessage(
    id: Id,
    sessionId: Id,
    sender: Sender,
    content: string,
    context: Option<string>,
    contentHash: string,
    createdAt: nat,
    deleted: bool)

  /** `normalize`: null becomes the empty string, anything else is trimmed and collapsed. */
  function Normalize(s: Option<string>): (r: string)
    ensures IsNormalized(r)
    ensures s.None? ==> r == ""
    ensures s.Some? ==> r == Pieces(Trim(s.value), 0)
  {
    match s
    case None => ""
    case Some(t) => NormalizeIdempotent(t); NormalizeIsNormalized(t); NormalizeText(t)
  }

  /** Normalising an already normalised content changes nothing. */
  lemma NormalizeIdempotentOnContent(s: Option<string>)
    ensures Normalize(Some(Normalize(s))) == Normalize(s)
  {
    NormalizeFixpoint(Normalize(s));
  }

  /** What every stored row satisfies once a hook has run: the hash is the hash of the content. */
  ghost predicate HashMatches(m: ChatMessage, sha256: string -> Digest) {
    IsNormalized(m.content) && m.contentHash == Fingerprint(sha256, m.content)
  }

  /** `recomputeHash`: normalise the content in place, then store its fingerprint. */
  function RecomputeHash(m: ChatMessage, sha256: string -> Digest): (r: ChatMessage)
    ensures HashMatches(r, sha256)
    ensures r.content == Pieces(Trim(m.content), 0)
    ensures Visible(r.content) == Visible(m.content)
    ensures r == m.(content := r.content, contentHash := r.contentHash)
  {
    var normalized := NormalizeText(m.content);
    NormalizeIsNormalized(m.content);
    NormalizeKeepsVisible(m.content);
    m.(content := normalized, contentHash := Fingerprint(sha256, normalized))
  }

  /** `@PrePersist onCreate`: stamp the creation time, then recompute the hash. */
  function OnCreate(m: ChatMessage, sha256: string -> Digest, now: nat): (r: ChatMessage)
    ensures HashMatches(r, sha256) && r.createdAt == now
    ensures r.content == Pieces(Trim(m.content), 0)
    ensures r == m.(createdAt := now, content := r.content, contentHash := r.contentHash)
  {
    RecomputeHash(m.(createdAt := now), sha256)
  }

  /** `@PreUpdate onUpdate`: recompute the hash; the creation time is not touched. */
  function OnUpdate(m: ChatMessage, sha256: string -> Digest): (r: ChatMessage)
    ensures HashMatches(r, sha256)
    ensures r.content == Pieces(Trim(m.content), 0)
    ensures r == m.(content := r.content, contentHash := r.contentHash)
  {
    RecomputeHash(m, sha256)
  }

  /** A hook run on a row that already satisfies the hash invariant leaves the row as it is. */
  lemma OnUpdateOfConsistentRow(m: ChatMessage, sha256: string -> Digest)
    requires HashMatches(m, sha256)
    ensures OnUpdate(m, sha256) == m
  {
    NormalizeFixpoint(m.content);
  }

  /** Two contents that normalise alike are stored alike, under the same fingerprint. */
  lemma SameNormalFormSameRow(a: ChatMessage, b: ChatMessage, sha256: string -> Digest)
    requires a == b.(content := a.content)
    requires NormalizeText(a.content) == NormalizeText(b.content)
    ensures RecomputeHash(a, sha256) == RecomputeHash(b, sha256)
  {
  }
}
