/** Failure-carrying datatypes used across the model. */
module Wrappers {

  /** A value that may be absent: used where the bot's Python code raises
      a ValueError or KeyError that nobody catches. */
  datatype Option<+T> = None | Some(value: T)

  /** A value or an error. */
  datatype Result<+R, +E> = Success(value: R) | Failure(error: E)
}
