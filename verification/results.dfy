/** Absent values and failing operations. */
module Results {

  /** A value that may be missing, as `T | undefined` is. */
  datatype Option<T> = None | Some(value: T)

  /** The outcome of an operation that may throw instead of returning. */
  datatype Result<T, E> = Success(value: T) | Failure(error: E)
}
