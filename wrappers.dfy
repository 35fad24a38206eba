/** Option and Result, the failure-carrying values the modules below return
    where the source reports an error, throws, or reaches undefined behaviour. */
module Wrappers {

  datatype Option<+T> = None | Some(value: T)

  datatype Result<+T, +E> = Success(value: T) | Failure(error: E)
}
