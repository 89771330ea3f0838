/** Option and Result, for queries that may find nothing and for the run
    that may stop on a failed assertion. */
module Wrappers {

  datatype Option<+T> = None | Some(value: T)

  datatype Result<+R, +E> = Success(value: R) | Failure(error: E)
}
