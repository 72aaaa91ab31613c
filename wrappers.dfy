/** Option and Result, the two failure-carrying shapes the workflow uses. */
module Wrappers {

  datatype Option<+T> = None | Some(value: T)

  /** Either a computed value or an error message. */
  datatype Result<+T> = Success(value: T) | Failure(error: string)
}
