/** Option and Result: the "missing value" and "success or failure" shapes
    used for Python's None arguments and for exceptions raised by the scripts. */
module Wrappers {

  datatype Option<+T> = None | Some(value: T)

  datatype Result<+T, +E> = Ok(value: T) | Err(error: E)
}
