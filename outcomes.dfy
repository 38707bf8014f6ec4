/** Optional values and failure-or-value results, used for JavaScript's
    `undefined` fields and for the errors the store throws. */
module Outcomes {

  /** A value that may be absent; `None` stands for JavaScript's `undefined`. */
  datatype Option<T> = None | Some(value: T)

  /** The outcome of an operation that either returns a value or throws. */
  datatype Result<T, E> = Ok(value: T) | Err(error: E)
}
