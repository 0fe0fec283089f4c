/** Option and Result, used for the renderer's "may be missing" central image
    and for the band resolver's failure. */
module Wrappers {

  datatype Option<+T> = None | Some(value: T)

  datatype Result<+T, +E> = Success(value: T) | Failure(error: E)
}
