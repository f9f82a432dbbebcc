/** Option and Result, used for lookups that may find nothing and for the
    strict accessors that fail instead of throwing. */
module Wrappers {

  datatype Option<+T> = None | Some(value: T)

  datatype Result<+R, +E> = Success(value: R) | Failure(error: E)
}
