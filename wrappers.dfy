/** Option and Result, used for the optional settings of the pipeline and for
    the paths on which the Python program raises instead of returning. */
module Wrappers {

  datatype Option<+T> = None | Some(value: T)

  datatype Result<+R, +E> = Success(value: R) | Failure(error: E)
}
