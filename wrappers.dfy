/** Option and Result, the two wrappers the model uses for reads that can fail and for runs that stop early. */
module Wrappers {

  datatype Option<+T> = None | Some(value: T)

  datatype Result<+R, +E> = Success(value: R) | Failure(error: E)
}
