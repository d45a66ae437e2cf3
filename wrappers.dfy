/** Option and Result, the shapes the program's `Option` and panicking
    `unwrap`/`expect` calls take in this model. */
module Wrappers {

  datatype Option<+T> = None | Some(value: T)

  datatype Result<+R, +E> = Success(value: R) | Failure(error: E)
}
