/** Failure-compatible wrappers used across the model. */
module Results {

  datatype Option<+T> = None | Some(value: T)

  /** A value, or the exception the Java code would throw instead of returning. */
  datatype Result<+T, +E> = Ok(value: T) | Err(error: E)
}
