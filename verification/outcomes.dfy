/** Optional values and results with an error, shared by every module of the model. */
module Outcomes {

  /** A value that may be absent: a SQL NULL, an omitted argument, a lookup that found nothing. */
  datatype Option<+T> = None | Some(value: T)

  /** The outcome of an operation that may throw: the value it returns, or the error it throws. */
  datatype Result<+T, +E> = Ok(value: T) | Err(error: E)
}
