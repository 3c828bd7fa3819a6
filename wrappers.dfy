/** Option and Result, used for the places where the program either skips a
    record (an exception caught and logged) or stops (an exception that is
    not caught). */
module Wrappers {

  datatype Option<+T> = None | Some(value: T)

  datatype Result<+T, +E> = Ok(value: T) | Err(error: E)
}
