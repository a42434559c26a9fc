/** Optional values and results with an error, used for the hooks' nullable
    arguments and for the save-file decoder's failure cases. */
module Wrappers {

  datatype Option<+T> = None | Some(value: T)

  datatype Result<+R, +E> = Success(value: R) | Failure(error: E)
}
