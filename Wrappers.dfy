/** Optional values and results with an error branch, used wherever the
    Java code returns an `Optional`, a nullable reference, or throws. */
module Wrappers {

  datatype Option<+T> = None | Some(value: T)

  datatype Result<+T, +E> = Ok(value: T) | Err(error: E)
}
