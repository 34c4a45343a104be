/** Optional values (Python's `None`) and outcomes of calls that may raise. */
module Values {

  datatype Option<T> = None | Some(value: T)

  /** The outcome of a call that either returns a value or raises an exception with a message. */
  datatype Result<T> = Success(value: T) | Failure(error: string)
}
