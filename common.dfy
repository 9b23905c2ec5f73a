/** Failure-carrying wrappers shared by the whole model. */
module Common {

  /** An external lookup that may yield nothing (a failed query, a nil pointer). */
  datatype Option<T> = None | Some(value: T)

  /** A value or an error kind. */
  datatype Result<T, E> = Ok(value: T) | Err(error: E)

  /** The outcome of an operation that returns only an error. */
  datatype Outcome<E> = Pass | Fail(error: E)
}
