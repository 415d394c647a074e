/** Values shared by every part of the model: optional values, results, and the
    identifiers (MongoDB ObjectIds) that the document store hands out. */
module Common {

  /** A value that may be absent (`undefined` / `null` in the source). */
  datatype Option<+T> = None | Some(value: T)

  /** The outcome of a step that may throw. */
  datatype Result<+T, +E> = Ok(value: T) | Err(error: E)

  /** ObjectIds. The model only needs equality and a supply of fresh ones,
      which the store draws from one counter. */
  type CommentId = nat
  type UserId = nat
  type ArtistId = nat
  type MemberId = nat
}
