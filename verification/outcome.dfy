/** Option and Result, for the scanners that may find nothing and the extractor that may fail. */
module Outcome {

  datatype Option<+T> = None | Some(value: T)

  datatype Result<+T, +E> = Success(value: T) | Failure(error: E)
}
