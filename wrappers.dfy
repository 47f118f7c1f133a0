/** Failure-carrying wrappers shared by every module: Python's `None` and
    its raised exceptions become these values. */
module Wrappers {

  datatype Option<+T> = None | Some(value: T)

  datatype Result<+T, +E> = Ok(value: T) | Err(error: E)
}
