/** Option and Result, used where the script either has no value (a missing
    .gitignore) or stops with an exception (a file that cannot be read). */
module Wrappers {

  datatype Option<+T> = None | Some(value: T)

  datatype Result<+T, +E> = Ok(value: T) | Err(error: E)
}
