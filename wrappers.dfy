/** Option and Result, the shapes the model uses for Python's `None` results
    and for the exceptions the containers raise. */
module Wrappers {

  datatype Option<+T> = None | Some(value: T)

  datatype Result<+R, +E> = Ok(value: R) | Err(error: E)
}
