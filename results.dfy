/** The two failure-carrying wrappers the model uses in place of Python's `None` and exceptions. */
module Results {

  /** A value that may be missing (Python's `None`, or pandas' "not available"). */
  datatype Option<T> = None | Some(value: T)

  /** The outcome of an operation that either returns a value or raises an error. */
  datatype Result<T, E> = Ok(value: T) | Err(error: E)
}
