/** Failure-carrying wrappers shared by both cores. */
module Results {

  /** A value that may be absent: JavaScript's `undefined`, Python's `None`. */
  datatype Option<+T> = None | Some(value: T)

  /** The outcome of an operation that may raise an exception in the source. */
  datatype Result<+R, +E> = Success(value: R) | Failure(error: E)
}
