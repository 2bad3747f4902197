/** Failure-compatible wrappers shared by the modules of this model. */
module Common {

  /** A value that may be absent: JavaScript's `undefined`/`null` versus a value. */
  datatype Option<+T> = None | Some(value: T)

  /** The outcome of a call that may throw: a value, or the error it threw. */
  datatype Result<+R, +E> = Success(value: R) | Failure(error: E)
}
