/** Failure-carrying values shared by the parser modules. */
module Results {

  /** A value that may be absent, used for the lazily created body parser. */
  datatype Option<+T> = None | Some(value: T)

  /** The outcome of feeding input to a parser: the new parser, or the reason it cannot go on. */
  datatype Result<+T, +E> = Success(value: T) | Failure(error: E)
}
