/** Option and Result: the absent value of a singular field, and the outcome of a
    decoding step that may raise. */
module Wrappers {

  /** A value that may be absent: the model's stand-in for a key missing from a dict. */
  datatype Option<+T> = None | Some(value: T)

  /** The outcome of a decoding step: a value, or the exception that aborts the parse. */
  datatype Result<+R, +E> = Success(value: R) | Failure(error: E)
}
