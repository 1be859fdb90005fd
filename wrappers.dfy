/** Optional values, and the outcome of a call that may raise. */
module Wrappers {
  /** Python's `None` or a present value. */
  datatype Option<+T> = None | Some(value: T)

  /** A value, or the exception a call raised, given by its `str(e)`. */
  datatype Outcome<+T> = Ok(value: T) | Error(message: string)
}
