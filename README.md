# rag-chat-microservice: conversation history, modelled in Dafny

This project models the consistency engine of a chat back end that stores conversations for
a retrieval-augmented assistant. There are two tables: chat sessions and chat messages. Two
services run over them:

- The **session service** creates sessions on a get-or-create basis. The key is the owner
  and the normalised title among live sessions; a uniqueness failure on save becomes
  Conflict. It also looks sessions up, edits and renames them under a duplicate-title rule,
  and sets the favourite flag. Its delete is an idempotent soft delete that cascades to the
  session's messages. The owner listings have explicit not-found rules.
- The **message service** appends messages, with deduplication of USER messages by a
  content fingerprint. It runs the completion round trip: store the user turn, render the
  history as a prompt, store the reply or an error marker. A USER message can be deleted
  together with the AI reply right after it. An edit sweeps the stale AI replies of its
  turn and then asks for a fresh reply.

Layout, one module per source unit:

| file | module | models |
|---|---|---|
| `wrappers.dfy` | `Wrappers`, `Errors` | `Option`, `Result`, and one error per exception a core call can raise |
| `text.dfy` | `JavaText` | `String.trim()` and `replaceAll("\\s+", " ")`, and the normalised shape they produce |
| `content_hash.dfy` | `ContentHash` | the `%02x` hex encoding of a SHA-256 digest of signed bytes |
| `chat_message.dfy` | `ChatMessageModel` | the message record, the `Sender` tags, the persist/update hooks |
| `chat_session.dfy` | `ChatSessionModel` | the session record, its unique key and its timestamp hooks |
| `seqs.dfy` | `Seqs` | order-preserving filtering, which every derived query is |
| `session_repository.dfy` | `SessionRepository` | the session queries, and the table whose saves enforce the unique key and the `@Version` lock |
| `message_repository.dfy` | `MessageRepository` | the message queries, and the table with insert, update, hard delete and the bulk soft delete |
| `prompt.dfy` | `Prompt` | prompt rendering and the error marker for a failed completion |
| `session_service.dfy` | `SessionServiceImpl` | the session service |
| `message_service.dfy` | `MessageServiceImpl` | the message service |

The record types are datatypes. Their JPA lifecycle hooks are functions that return the
updated record. The two tables are classes. Each holds its rows as a sequence in insertion
order, plus an id counter and a logical clock that every save advances. Each table has an
invariant `Valid()`:

- For sessions: the unique key (user, title, deleted) and distinct ids hold, and ids and
  stamps come from the counter and the clock.
- For messages: rows are in strictly increasing `createdAt` order with distinct ids, and
  every stored hash is the fingerprint of its normalised content.

Every service call is a method over the tables. Its `ensures` states the whole new state
and the result, including each error path. The query functions carry if-and-only-if
membership contracts. The lemmas cover the properties that relate several definitions:

- normalisation is idempotent, and its fixed points are exactly the normalised strings;
- the hex encoding round-trips;
- the unique key allows at most one live row per title;
- the favourites and active listings are filters of the wider listings;
- the soft delete leaves other sessions alone;
- the delete and sweep target sets have an exact characterisation;
- the prompt splits back into one line per message.

SHA-256 over UTF-8 is the table's constant `sha256: string -> Digest`, a deterministic but
otherwise unknown function to 32 signed bytes. The completion provider is a function
parameter `provider: string -> Completion`, which returns a reply or a failure with a
possibly null message. `LocalDateTime.now()` is the table's clock.

## Model

| member | source | states |
|---|---|---|
| JavaText.TrimLeading | src/main/java/rag_chat_microservice/model/ChatMessage.java:68 | the result is a suffix of the input, everything dropped is a character up to U+0020, and the result does not start with one |
| JavaText.TrimTrailing | src/main/java/rag_chat_microservice/model/ChatMessage.java:68 | the result is a prefix of the input, everything dropped is a character up to U+0020, and the result does not end with one |
| JavaText.Trim | src/main/java/rag_chat_microservice/model/ChatMessage.java:68 | `String.trim`: neither end of the result is a character up to U+0020, and a string already in that shape is returned unchanged; which slice it keeps is stated by `TrimKeepsSlice` |
| JavaText.TrimIsSlice | src/main/java/rag_chat_microservice/model/ChatMessage.java:68 | dropping the leading trimmable run and then the trailing one leaves the slice of the input that starts where the leading run ends, with only characters up to U+0020 before and after it, and visible characters at both of its ends |
| JavaText.TrimKeepsSlice | src/main/java/rag_chat_microservice/model/ChatMessage.java:68 | `String.trim` returns the slice of its input that starts after the leading run of characters up to U+0020, and everything before and after that slice is such a character |
| JavaText.TrimmedSliceUnique | src/main/java/rag_chat_microservice/model/ChatMessage.java:68 | two slices of one string that drop only characters up to U+0020 on either side and start and end visibly are the same string, so `Trim` is determined by its contract |
| JavaText.Collapse | src/main/java/rag_chat_microservice/model/ChatMessage.java:68 | `replaceAll("\\s+", " ")` never lengthens the text and equals `Pieces(s, 0)`, an independent position-by-position definition: a non-`\s` character is kept, the first `\s` of a run becomes one space, and the rest of the run is dropped |
| JavaText.PiecesOfSuffix | src/main/java/rag_chat_microservice/model/ChatMessage.java:68 | cutting off the first characters of a string, at a point that does not split a `\s` run, leaves the position-by-position replacement from any later position unchanged |
| JavaText.PiecesAfterSpace | src/main/java/rag_chat_microservice/model/ChatMessage.java:68 | after a `\s` character the replacement drops the rest of the run, so it equals the replacement of the text after that run |
| JavaText.NormalizeText | src/main/java/rag_chat_microservice/model/ChatMessage.java:67-69 | `s.trim().replaceAll("\\s+", " ")` equals the position-by-position run replacement `Pieces` applied to the trimmed string |
| JavaText.CollapseIsCollapsed | src/main/java/rag_chat_microservice/model/ChatMessage.java:68 | after collapsing, every `\s` character is a plain space and no two `\s` characters are adjacent |
| JavaText.CollapseFixpoint | src/main/java/rag_chat_microservice/model/ChatMessage.java:68 | a string that is already collapsed is left unchanged by the replacement |
| JavaText.CollapseKeepsVisible | src/main/java/rag_chat_microservice/model/ChatMessage.java:68 | collapsing keeps every character above U+0020, in order |
| JavaText.CollapseKeepsVisibleEnds | src/main/java/rag_chat_microservice/model/ChatMessage.java:67-69 | when a string starts and ends with characters above U+0020, collapsing keeps those two characters as the ends of the result, so trimmed text stays trimmed after the replacement |
| JavaText.TrimKeepsVisible | src/main/java/rag_chat_microservice/model/ChatMessage.java:68 | trimming keeps every character above U+0020, in order |
| JavaText.NormalizeKeepsVisible | src/main/java/rag_chat_microservice/model/ChatMessage.java:67-69 | normalisation drops or rewrites only characters up to U+0020; the visible text is unchanged |
| JavaText.NormalizeIsNormalized | src/main/java/rag_chat_microservice/model/ChatMessage.java:67-69 | every normalised string is collapsed and has no trimmable character at either end |
| JavaText.NormalizeFixpoint | src/main/java/rag_chat_microservice/model/ChatMessage.java:67-69 | a string of the normalised shape is its own normal form |
| JavaText.NormalizeFixpointIff | src/main/java/rag_chat_microservice/model/ChatMessage.java:67-69 | a string is unchanged by normalisation if and only if it has the normalised shape |
| JavaText.NormalizeIdempotent | src/main/java/rag_chat_microservice/model/ChatMessage.java:67-69 | normalising twice is the same as normalising once |
| JavaText.NormalizedHasNoNewline | src/main/java/rag_chat_microservice/service/MessageServiceImpl.java:84-91 | a normalised content contains no newline, so it cannot split a prompt line |
| ContentHash.Unsigned | src/main/java/rag_chat_microservice/model/ChatMessage.java:76 | `%02x` of a signed byte prints the value in 0..255 that is congruent to it modulo 256 |
| ContentHash.ByteHex | src/main/java/rag_chat_microservice/model/ChatMessage.java:76 | each digest byte becomes exactly two lower-case hex digits |
| ContentHash.Hex | src/main/java/rag_chat_microservice/model/ChatMessage.java:74-77 | the hex text of n bytes is 2n lower-case hex digits |
| ContentHash.Fingerprint | src/main/java/rag_chat_microservice/model/ChatMessage.java:71-81 | the stored content hash is 64 lower-case hex characters, the width of the `content_hash` column |
| ContentHash.ByteHexRoundTrip | src/main/java/rag_chat_microservice/model/ChatMessage.java:76 | reading the two digits back gives the unsigned byte value |
| ContentHash.HexRoundTrip | src/main/java/rag_chat_microservice/service/MessageServiceImpl.java:233-238 | decoding the hex text gives back the unsigned digest bytes, position by position |
| ContentHash.HexInjective | src/main/java/rag_chat_microservice/service/MessageServiceImpl.java:233-238 | different digests never print the same hex text |
| ContentHash.FingerprintDeterminesDigest | src/main/java/rag_chat_microservice/model/ChatMessage.java:71-81 | two equal stored hashes come from equal digests |
| ContentHash.HexAppend | src/main/java/rag_chat_microservice/service/MessageServiceImpl.java:235-236 | the hex text of a byte sequence is the hex text of its parts concatenated; this is what the appending loop relies on |
| ContentHash.Sha256 | src/main/java/rag_chat_microservice/service/MessageServiceImpl.java:229-242 | the loop that formats each digest byte with `%02x` into a builder returns exactly the fingerprint of the text |
| ChatMessageModel.SenderName | src/main/java/rag_chat_microservice/service/MessageServiceImpl.java:86 | a sender prints as its enum constant name: at least two characters and no newline |
| ChatMessageModel.Normalize | src/main/java/rag_chat_microservice/model/ChatMessage.java:67-69 | null becomes the empty string; any other content becomes `Pieces(Trim(s), 0)`, its trimmed text with each `\s` run replaced by one space; the result always has the normalised shape |
| ChatMessageModel.NormalizeIdempotentOnContent | src/main/java/rag_chat_microservice/model/ChatMessage.java:67-69 | normalising an already normalised content leaves it unchanged |
| ChatMessageModel.RecomputeHash | src/main/java/rag_chat_microservice/model/ChatMessage.java:60-65 | afterwards the content is `Pieces(Trim(content), 0)`, the normalised old content, and the hash is the fingerprint of that content; the visible text is kept and no other field changes |
| ChatMessageModel.OnCreate | src/main/java/rag_chat_microservice/model/ChatMessage.java:49-53 | the persist hook sets `createdAt` to the clock reading, replaces the content by its normal form `Pieces(Trim(content), 0)` and the hash by its fingerprint, and changes no other field |
| ChatMessageModel.OnUpdate | src/main/java/rag_chat_microservice/model/ChatMessage.java:55-58 | the update hook replaces the content by its normal form `Pieces(Trim(content), 0)` and the hash by its fingerprint, and changes no other field, `createdAt` included |
| ChatMessageModel.OnUpdateOfConsistentRow | src/main/java/rag_chat_microservice/model/ChatMessage.java:55-65 | running the update hook on a row whose hash already matches changes nothing |
| ChatMessageModel.SameNormalFormSameRow | src/main/java/rag_chat_microservice/model/ChatMessage.java:60-65 | two rows whose contents normalise alike end up with equal content and equal hash |
| ChatSessionModel.OnCreate | src/main/java/rag_chat_microservice/model/ChatSession.java:54-59 | the persist hook sets `createdAt == updatedAt ==` one clock reading and touches no other field |
| ChatSessionModel.OnUpdate | src/main/java/rag_chat_microservice/model/ChatSession.java:61-64 | the update hook refreshes `updatedAt` only; `createdAt` is never changed |
| SessionRepository.ActiveSessionsOf | src/main/java/rag_chat_microservice/repository/SessionRepository.java:13 | a session is listed if and only if it belongs to the user and is not deleted |
| SessionRepository.FavoriteSessionsOf | src/main/java/rag_chat_microservice/repository/SessionRepository.java:15 | a session is listed if and only if it belongs to the user, is a favourite and is not deleted |
| SessionRepository.FavoritesAreFilteredActive | src/main/java/rag_chat_microservice/repository/SessionRepository.java:13-15 | the favourites listing is exactly the live listing with the non-favourites removed, in the same order |
| SessionRepository.TitleMatches | src/main/java/rag_chat_microservice/repository/SessionRepository.java:17 | a row matches if and only if it has the key (user, title, not deleted) |
| SessionRepository.FindActiveByTitle | src/main/java/rag_chat_microservice/repository/SessionRepository.java:17 | the result is present if and only if some row has the key (user, title, not deleted), and it is such a stored row |
| SessionRepository.ExistsActiveByTitle | src/main/java/rag_chat_microservice/repository/SessionRepository.java:18 | true if and only if a row has the key (user, title, not deleted), and it agrees with the lookup |
| SessionRepository.ExistsByUserId | src/main/java/rag_chat_microservice/repository/SessionRepository.java:19 | true if and only if the user owns some session, deleted or not |
| SessionRepository.FindById | src/main/java/rag_chat_microservice/service/SessionServiceImpl.java:119-120 | the result is present if and only if some row has that id, deleted or not, and it is that row |
| SessionRepository.AtMostOneActivePerTitle | src/main/java/rag_chat_microservice/model/ChatSession.java:16-22 | under the unique key, at most one live row matches a (user, title) pair, so the single-result lookup never fails |
| SessionRepository.OwnKeyNotTaken | src/main/java/rag_chat_microservice/model/ChatSession.java:16-22 | a stored row's key is held by no other row |
| SessionRepository.UniqueKeysAfterReplace | src/main/java/rag_chat_microservice/model/ChatSession.java:16-22 | replacing a row by one whose key no other row holds keeps the unique key |
| SessionRepository.SessionTable.constructor | src/main/java/rag_chat_microservice/model/ChatSession.java:16-22 | an empty table satisfies the unique key and the stamp invariant |
| SessionRepository.SessionTable.Insert | src/main/java/rag_chat_microservice/service/SessionServiceImpl.java:40-51 | a save fails with an integrity violation, changing nothing, exactly when the title is null or the key (user, title, deleted) is taken; otherwise it appends one row with a fresh id, version 0 and both stamps from one clock reading |
| SessionRepository.SessionTable.Update | src/main/java/rag_chat_microservice/model/ChatSession.java:36-37 | a save is rejected as stale exactly when the id is unknown or the version differs, and as an integrity violation exactly when another row holds the new key; otherwise the row is replaced, the version goes up by one, `updatedAt` is refreshed and `createdAt` is kept |
| SessionServiceImpl.NormalizeTitle | src/main/java/rag_chat_microservice/service/SessionServiceImpl.java:227-234 | null maps to null; any other title maps to `Pieces(Trim(title), 0)`, which has the normalised shape and the same visible text |
| SessionServiceImpl.NormalizeTitleIdempotent | src/main/java/rag_chat_microservice/service/SessionServiceImpl.java:227-234 | normalising a title twice is the same as normalising it once |
| SessionServiceImpl.CreateSession | src/main/java/rag_chat_microservice/service/SessionServiceImpl.java:30-58 | when the user already has a live session with the normalised title, that session is returned and nothing is stored; otherwise exactly one session is appended with that key, favourite false, deleted false and `createdAt == updatedAt`; a save that fails (null title) is reported as Conflict and stores nothing |
| SessionServiceImpl.GetSession | src/main/java/rag_chat_microservice/service/SessionServiceImpl.java:60-69 | returns the stored session with that id, deleted or not; it fails with not-found if and only if no row has the id |
| SessionServiceImpl.DuplicateTitle | src/main/java/rag_chat_microservice/service/SessionServiceImpl.java:76-83 | the edit is refused exactly when the session exists, the normalised title differs from its current one, and another row holds the key (user, normalised title, live) |
| SessionServiceImpl.Edited | src/main/java/rag_chat_microservice/service/SessionServiceImpl.java:76-88 | a null title or favourite of the request keeps the stored value; a given title is stored as `Pieces(Trim(title), 0)`, which is normalised; a given favourite replaces the flag; no other field changes |
| SessionServiceImpl.LiveEditKeepsKeyFree | src/main/java/rag_chat_microservice/service/SessionServiceImpl.java:76-83 | when the duplicate-title rule lets an edit of a live session through, its new key is held by no other row, so the save cannot hit the unique key |
| SessionServiceImpl.UpdateSession | src/main/java/rag_chat_microservice/service/SessionServiceImpl.java:71-101 | fails with not-found exactly for an unknown id; a changed normalised title that another live session of the user already holds gives Conflict and changes nothing; keeping the title always succeeds; on success only the non-null fields change, the version goes up by one and `updatedAt` is refreshed |
| SessionServiceImpl.SaveEdit | src/main/java/rag_chat_microservice/service/SessionServiceImpl.java:90-100 | the save of an edited, freshly loaded session fails with Conflict, changing nothing, exactly when another row holds its key; otherwise the row is replaced with the version advanced and `updatedAt` refreshed |
| SessionServiceImpl.RenameSession | src/main/java/rag_chat_microservice/service/SessionServiceImpl.java:188-212 | an unknown id gives not-found; then a null title fails; a changed title that another live session of the user already holds gives Conflict; renaming to the current title succeeds; success changes only the title, the version and `updatedAt` |
| SessionServiceImpl.MarkFavorite | src/main/java/rag_chat_microservice/service/SessionServiceImpl.java:214-223 | fails exactly for an unknown id; otherwise it sets the flag whatever its old value, advances the version, refreshes `updatedAt`, and changes nothing else |
| SessionServiceImpl.DeleteSession | src/main/java/rag_chat_microservice/service/SessionServiceImpl.java:116-136 | an unknown id fails; an already deleted session succeeds with no save and no cascade; a live session whose flagged key (user, title, deleted) no other row holds always succeeds, and is then flagged deleted with its version advanced and every message of the session soft-deleted; when another row holds the flagged key, the save fails and nothing changes |
| SessionServiceImpl.GetUserSessions | src/main/java/rag_chat_microservice/service/SessionServiceImpl.java:140-161 | not-found when the user owns no session at all; a second not-found when none is live; otherwise exactly the user's live sessions, never an empty list |
| SessionServiceImpl.GetFavoriteSessions | src/main/java/rag_chat_microservice/service/SessionServiceImpl.java:164-184 | not-found when the user owns no session at all; a second not-found when no live session is a favourite; otherwise exactly the user's live favourites, never an empty list |
| MessageRepository.SessionHistory | src/main/java/rag_chat_microservice/repository/MessageRepository.java:26 | a row is in the history if and only if it belongs to the session; deleted rows are included |
| MessageRepository.ActiveHistory | src/main/java/rag_chat_microservice/repository/MessageRepository.java:37 | a row is in the active history if and only if it belongs to the session and is not deleted |
| MessageRepository.Page | src/main/java/rag_chat_microservice/repository/MessageRepository.java:23 | a page holds the history rows at offsets `page*size + k`, in order; it is empty when it starts at or past the end, holds exactly the remaining rows when fewer than `size` are left, and holds `size` rows otherwise |
| MessageRepository.PageOfHistory | src/main/java/rag_chat_microservice/repository/MessageRepository.java:39 | every row of a page comes from the history, and a page of an ordered history is itself ordered |
| MessageRepository.FindBySenderAndHash | src/main/java/rag_chat_microservice/repository/MessageRepository.java:29-30 | a row matches if and only if it has that session, sender and hash, whether it is deleted or not |
| MessageRepository.FindInSession | src/main/java/rag_chat_microservice/repository/MessageRepository.java:41 | present if and only if a row has that id and belongs to that session, and it is such a row |
| MessageRepository.ExistsInSession | src/main/java/rag_chat_microservice/repository/MessageRepository.java:42 | true if and only if a row has that id and session, and it agrees with the lookup |
| MessageRepository.FindById | src/main/java/rag_chat_microservice/service/MessageServiceImpl.java:118-122 | present if and only if a row has that id, and it is that row |
| MessageRepository.IndexOfId | src/main/java/rag_chat_microservice/service/MessageServiceImpl.java:133 | the first position holding that id, or -1 when no row has it |
| MessageRepository.Without | src/main/java/rag_chat_microservice/service/MessageServiceImpl.java:142 | after a hard delete, a row remains if and only if it was stored and its id is not among the deleted ids |
| MessageRepository.SoftDeleted | src/main/java/rag_chat_microservice/repository/MessageRepository.java:33-35 | the table keeps its length; each row of the session is flagged deleted, and every other row is unchanged |
| MessageRepository.ActiveHistoryIsFilteredHistory | src/main/java/rag_chat_microservice/repository/MessageRepository.java:37 | the active history is exactly the full history with its deleted rows removed, in the same order |
| MessageRepository.HistoriesAreChronological | src/main/java/rag_chat_microservice/repository/MessageRepository.java:26 | on a chronological table, both session queries return rows in ascending creation order |
| MessageRepository.SoftDeletedHistories | src/main/java/rag_chat_microservice/repository/MessageRepository.java:33-35 | after the bulk update the session has no active row, and every other session's full and active histories are unchanged |
| MessageRepository.WithoutNothing | src/main/java/rag_chat_microservice/service/MessageServiceImpl.java:173 | deleting no id keeps the table as it is |
| MessageRepository.WithoutUnion | src/main/java/rag_chat_microservice/service/MessageServiceImpl.java:137-142 | two hard deletes in a row remove exactly the union of their ids |
| MessageRepository.SameStampsKeepOrder | src/main/java/rag_chat_microservice/model/ChatMessage.java:46-47 | replacing a row with one that has the same id and `createdAt` keeps the table in creation order |
| MessageRepository.WithoutKeepsOrder | src/main/java/rag_chat_microservice/service/MessageServiceImpl.java:142 | hard deletes keep the remaining rows in creation order |
| MessageRepository.SoftDeletedKeepsOrder | src/main/java/rag_chat_microservice/repository/MessageRepository.java:33-35 | the bulk update keeps the table in creation order |
| MessageRepository.SameStampsKeepStored | src/main/java/rag_chat_microservice/model/ChatMessage.java:55-65 | replacing a row by a re-hashed one with the same id and `createdAt` keeps every stored hash matching its content |
| MessageRepository.AllStoredOfSubset | src/main/java/rag_chat_microservice/service/MessageServiceImpl.java:142 | rows that survive a delete still satisfy the stored-row invariant |
| MessageRepository.SessionCountIsHistoryLength | src/main/java/rag_chat_microservice/repository/MessageRepository.java:33-35 | the number of rows matched by the bulk update is the length of the session's history |
| MessageRepository.SoftDeletedKeepsStored | src/main/java/rag_chat_microservice/repository/MessageRepository.java:33-35 | flipping only the deleted flag keeps every stored hash matching its content |
| MessageRepository.FlagSession | src/main/java/rag_chat_microservice/repository/MessageRepository.java:33-35 | the row-by-row update yields exactly the soft-deleted table and counts exactly the rows of the session |
| MessageRepository.MessageTable.constructor | src/main/java/rag_chat_microservice/model/ChatMessage.java:20-47 | an empty table is chronological and fully hashed |
| MessageRepository.AppendKeepsStored | src/main/java/rag_chat_microservice/model/ChatMessage.java:46-53 | appending a row stamped with the next id and the current clock, with a matching hash, keeps the table chronological and fully hashed, and its id is new |
| MessageRepository.MessageTable.Insert | src/main/java/rag_chat_microservice/service/MessageServiceImpl.java:56-60 | a save appends one row with a fresh id, a `createdAt` later than every stored row, not deleted, with the normalised content and its fingerprint |
| MessageRepository.MessageTable.Update | src/main/java/rag_chat_microservice/service/MessageServiceImpl.java:164-165 | a save of a loaded row replaces it in place with the re-hashed row and keeps its stored `createdAt` |
| MessageRepository.MessageTable.DeleteById | src/main/java/rag_chat_microservice/service/MessageServiceImpl.java:142 | removes the row with that id and nothing else; an unknown id changes nothing |
| MessageRepository.MessageTable.SoftDeleteBySessionId | src/main/java/rag_chat_microservice/repository/MessageRepository.java:33-35 | flags every row of the session deleted, leaves every other row as it was, and returns how many rows the session had |
| Prompt.RenderLine | src/main/java/rag_chat_microservice/service/MessageServiceImpl.java:84-90 | a line starts with `SENDER: content`; the ` [Context: c]` suffix follows if and only if the context is non-null and non-empty; a line has no newline when its content and context have none |
| Prompt.RenderLines | src/main/java/rag_chat_microservice/service/MessageServiceImpl.java:84-91 | one line per history message, in the history's order |
| Prompt.Join | src/main/java/rag_chat_microservice/service/MessageServiceImpl.java:91 | joining a single line gives that line, and joining no line gives the empty string |
| Prompt.RenderPrompt | src/main/java/rag_chat_microservice/service/MessageServiceImpl.java:81-91 | the prompt of no message is empty, of one message is its line, and of more is the first line, a newline, and the prompt of the rest |
| Prompt.SplitJoin | src/main/java/rag_chat_microservice/service/MessageServiceImpl.java:91 | splitting the joined text at newlines gives back the lines, when no line holds a newline |
| Prompt.PromptHasOneLinePerMessage | src/main/java/rag_chat_microservice/service/MessageServiceImpl.java:81-91 | for a non-empty history whose contents are normalised and whose contexts hold no newline, cutting the prompt at newlines gives exactly one rendered line per message, in order |
| Prompt.ReplyText | src/main/java/rag_chat_microservice/service/MessageServiceImpl.java:94-101 | a reply is stored as it is; a failure becomes `[AI ERROR: ` + message + `]`, where a null message prints as `null` |
| MessageServiceImpl.LoadInSession | src/main/java/rag_chat_microservice/service/MessageServiceImpl.java:219-223 | found if and only if the message exists and belongs to the session, and then it is that row; otherwise not-found |
| MessageServiceImpl.NoHashMatchNoSameContent | src/main/java/rag_chat_microservice/service/MessageServiceImpl.java:46-54 | when no USER row of the session has the fingerprint of a text, no USER row of the session has that text as its content |
| MessageServiceImpl.GetMessageById | src/main/java/rag_chat_microservice/service/MessageServiceImpl.java:118-122 | found if and only if a row has the id; otherwise an unknown-message error |
| MessageServiceImpl.GetMessagesBySession | src/main/java/rag_chat_microservice/service/MessageServiceImpl.java:113-116 | the page cut from the session's full history, its rows belonging to the session and in ascending creation order |
| MessageServiceImpl.AddMessage | src/main/java/rag_chat_microservice/service/MessageServiceImpl.java:38-61 | an unknown session fails and changes nothing; a USER message whose hash matches one USER row of the session, deleted or not, returns that row and stores nothing; several such rows fail; otherwise one row with normalised content, the given sender and context, and deleted false is appended; a USER message whose normalised content is already stored as a USER row of the session never adds a row |
| MessageServiceImpl.GetAIResponse | src/main/java/rag_chat_microservice/service/MessageServiceImpl.java:70-111 | succeeds exactly when the session exists and at most one USER row of the session has the fingerprint of the normalised question; an unknown session gives the unknown-session error and two or more such rows the non-unique error, changing nothing; on success the USER turn is upserted: with one matching row it is reused and nothing else is stored before the reply, with none exactly one USER row is appended, with a null context and not deleted; then exactly one AI row is appended and returned, whose content is the normalised reply to the prompt rendered from the session's whole history at that point, a provider failure giving the error text |
| MessageServiceImpl.SaveReply | src/main/java/rag_chat_microservice/service/MessageServiceImpl.java:84-110 | appends exactly one AI row, with no context and not deleted, whose content is the normalised reply text for the prompt of the session's history before the append |
| MessageServiceImpl.DistinctIds | src/main/java/rag_chat_microservice/service/MessageServiceImpl.java:133 | in a chronological list, `indexOf` of a row is its own position |
| MessageServiceImpl.DeleteTargets | src/main/java/rag_chat_microservice/service/MessageServiceImpl.java:128-142 | the ids the delete removes always include the target and are at most two; any other one belongs to an AI row of the history and is removed only for a USER target |
| MessageServiceImpl.DeleteTargetsAreTurnAndReply | src/main/java/rag_chat_microservice/service/MessageServiceImpl.java:128-142 | in a chronological history the delete removes the target and only the row right after it, when the target is USER and that row is AI; at most two rows |
| MessageServiceImpl.DeleteMessage | src/main/java/rag_chat_microservice/service/MessageServiceImpl.java:124-143 | a message outside the session gives not-found and changes nothing; otherwise exactly the target, and the AI reply right after a USER target, are hard-deleted |
| MessageServiceImpl.ReplyAfter | src/main/java/rag_chat_microservice/service/MessageServiceImpl.java:130-139 | finds the AI row right after a USER target in its session's history, if there is one, and names exactly the set of rows the delete removes |
| MessageServiceImpl.StopIndex | src/main/java/rag_chat_microservice/service/MessageServiceImpl.java:174-179 | the first position at or after the start that is a USER or SYSTEM message, or the end of the history |
| MessageServiceImpl.SweptStep | src/main/java/rag_chat_microservice/service/MessageServiceImpl.java:174-185 | advancing the loop by one position adds the id of that row to the swept set exactly when it is an AI row after the edited one |
| MessageServiceImpl.SweepIds | src/main/java/rag_chat_microservice/service/MessageServiceImpl.java:172-186 | without the edited message in the history nothing is swept; otherwise every swept id is that of an AI row after the edited one |
| MessageServiceImpl.SweepRemovesStaleReplies | src/main/java/rag_chat_microservice/service/MessageServiceImpl.java:172-186 | a row is swept if and only if it is an AI message after the edited one and before the next USER or SYSTEM message; ASSISTANT rows are never swept and the sweep does not stop at them |
| MessageServiceImpl.SweepStaleReplies | src/main/java/rag_chat_microservice/service/MessageServiceImpl.java:172-186 | the loop with its `break` hard-deletes exactly the swept AI rows and nothing else |
| MessageServiceImpl.AfterSweep | src/main/java/rag_chat_microservice/service/MessageServiceImpl.java:167-186 | the table after the sweep keeps only stored rows, and keeps every row whose id no AI row of the edited session carries |
| MessageServiceImpl.UpdateMessage | src/main/java/rag_chat_microservice/service/MessageServiceImpl.java:145-215 | not-found outside the session; a non-USER target fails; unchanged normalised content returns the message and changes nothing; otherwise the content and hash are replaced in place, the stale AI replies of that turn are deleted, and exactly one fresh AI reply to the new history is appended |
| MessageServiceImpl.RefreshReplies | src/main/java/rag_chat_microservice/service/MessageServiceImpl.java:167-214 | after the edit, the table is the swept table plus exactly one new AI row, the reply to the swept history |

## Where the code and the intended design differ

The model follows the code in each case.

- The USER dedup lookup (`MessageRepository.java:29-30`) has no deleted filter, so a
  soft-deleted question is reused rather than re-inserted. See `AddMessage` and
  `FindBySenderAndHash`.
- Deleting a message and the edit sweep are hard deletes (`MessageServiceImpl.java:137,142,182`).
  The session cascade is a soft delete (`MessageRepository.java:33-35`).
- An empty owner listing is a not-found error, not an empty result
  (`SessionServiceImpl.java:154-158,178-181`).
- The edit sweep deletes only `AI` rows. `ASSISTANT` rows are neither deleted nor stop the sweep
  (`MessageServiceImpl.java:177-183`). See `SweepRemovesStaleReplies`.
- The unique key includes the deleted flag (`ChatSession.java:16-22`). So `deleteSession` of
  a live session fails when the user already has a deleted session with the same title. The
  service does not catch that failure: `DeleteSession` returns `Err(IntegrityViolation)` and
  nothing changes. For the same reason, renaming or editing a deleted session to the title of
  another deleted session of the user is reported as Conflict.
- The dedup lookup expects a single result. After `updateMessage` gives one USER row the same
  content as another in the session, a later `addMessage` of that content matches two rows.
  Spring Data then raises an incorrect-result-size error, modelled as `Err(NonUniqueResult)`.
- `createSession` with a null title reaches the save, and the NOT NULL column refuses it.
  That failure is a data-integrity violation, which the service reports as Conflict.
- `renameSession` with a null title fails after the lookup, when it calls `equals` on the
  null normalised title. This is modelled as `Err(NullTitle)`.

## Left out

- Controllers, the API-key and rate-limiting filters, the exception-to-HTTP mapping, DTOs and
  configuration are transport and framework code. HTTP status codes become `ServiceError`
  constructors.
- The HTTP client of the completion service is replaced by the `provider` function. A
  provider is therefore deterministic: the same prompt always gets the same completion.
- Real SHA-256 and UTF-8 encoding are left out. Only the digest's use and its hex rendering
  are modelled.
- Transactions, concurrency and the race that the unique constraint backs up are left out.
  Each call is one atomic step, and a save that would break the key fails at once. Hibernate
  may defer that failure to the flush at commit, outside the service's `catch`; the model
  treats every save as flushed immediately.
- Logging is left out.
- Entities are values, not shared mutable objects. A loaded entity and the stored row are
  compared by value, and `List.indexOf` (Lombok equality) is modelled as search by id. Ids
  are unique, so the two agree.
- UUIDs are numbers drawn from a counter. `userId` is never null.
- Listings come back in table order, which is insertion order. The listing queries have no
  `OrderBy`, so the database order is unspecified.
- The paged session history takes page and size directly. `GetMessagesBySession` requires a
  size of at least one, as `PageRequest` does. Sorting options of `Pageable` are left out.
- The bulk JPQL update `softDeleteBySessionId` is modelled as a row-by-row loop with the
  same effect and count. It bypasses the entity hooks, and so does the model.
- `ChatMessageController.addMessage` stores the USER message and then calls `getAIResponse`,
  which stores it again. This is only noted here: by `AddMessage`'s dedup contract, the
  second store returns the same row.
- MessageRepository.MessageTable.Update: requires the id to be stored already; its only
  caller saves a message it has just loaded.
- SessionServiceImpl.UpdateSession: Conflict is characterised exactly for live sessions. For a
  deleted session, the contract states that a duplicate title gives Conflict and that keeping
  the title succeeds, but not the exact key clash that also gives Conflict.
- SessionServiceImpl.RenameSession: the same holds as for `UpdateSession`. For a deleted
  session, success is stated only for keeping the current title.
- Prompt.PromptHasOneLinePerMessage: proved only for histories whose contexts hold no newline.
  Contexts are stored as given, not normalised, so a context with a newline splits its line
  of the prompt; the lemma says nothing about such a history.
- MessageServiceImpl.GetAIResponse: the session lookup that opens `getAIResponse`
  (`MessageServiceImpl.java:74-75`) is not made a second time. `addMessage` repeats it at
  once on the same table, so the model lets `AddMessage` make it, with the same outcome.
- Titles are compared character by character in `TitleMatches`, `KeyTaken` and the unique
  key. A database collation that compares titles case- or accent-insensitively, which
  `SessionServiceImpl.java:231-232` allows for, is not modelled. Neither is the lower-casing
  that is commented out there.
