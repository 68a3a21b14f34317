/** Optional values and results with an error message. */
module Wrappers {

  datatype Option<+T> = None | Some(value: T)

  /** An operation that either yields a value or stops the program with a message. */
  datatype Result<+T> = Success(value: T) | Failure(error: string)
}
