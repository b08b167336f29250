/** Option and Result, used for the source's `None` values and for its exceptions. */
module Wrappers {

  datatype Option<+T> = None | Some(value: T)

  /** `Failure` stands for a Python exception that propagates to the caller. */
  datatype Result<+T> = Success(value: T) | Failure(error: string)
}
