/** Values that may be missing, and computations that may fail. */
module Results {

  /** A value that may be absent (an index that does not exist, a string that is not a number). */
  datatype Option<+T> = None | Some(value: T)

  /** The outcome of a step that can raise: its value, or the error it raises. */
  datatype Result<+T, +E> = Success(value: T) | Failure(error: E)
}
