/** Option and Result: Java's nullable references and thrown exceptions, made explicit. */
module Wrappers {

  /** A value that may be absent (a Java reference that may be null). */
  datatype Option<+T> = None | Some(value: T)

  /** The outcome of an operation that may throw. */
  datatype Result<+T, +E> = Ok(value: T) | Err(error: E)
}

/** The failures the core can raise, one constructor per distinct exception the code throws. */
module Errors {

  datatype ServiceError =
    | SessionNotFound      // SessionNotFoundException from getSession
    | SessionMissing       // plain RuntimeException("Session not found") from deleteSession
    | UnknownSession       // IllegalArgumentException from addMessage / getAIResponse
    | UnknownMessage       // IllegalArgumentException from getMessageById
    | UserNotFound         // 404: the owner has no session at all
    | NoActiveSessions     // 404: the owner has no active session
    | NoFavoriteSessions   // 404: the owner has no active favourite session
    | MessageNotInSession  // 404 from loadInSession
    | OnlyUserEditable     // 400: updateMessage on a non-USER message
    | Conflict             // 409: title already taken (pre-check or caught integrity violation)
    | IntegrityViolation   // DataIntegrityViolationException that the caller does not catch
    | StaleVersion         // optimistic-locking failure on a versioned save
    | NonUniqueResult      // IncorrectResultSizeDataAccessException: a single-result query matched several rows
    | NullTitle            // NullPointerException: renameSession with a null title
}
