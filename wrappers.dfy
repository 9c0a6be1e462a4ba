/** Option and Result, used where the source returns `null` or throws. */
module Wrappers {

  datatype Option<+T> = None | Some(value: T)

  /** `Failure` carries the message of the error the source throws. */
  datatype Result<+T> = Success(value: T) | Failure(error: string)
}
