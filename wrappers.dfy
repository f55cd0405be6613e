/** Failure-carrying values shared by the other modules: a lookup that may
    miss, a computation that may raise, and a step that may raise without
    producing a value. */
module Wrappers {

  datatype Option<+T> = None | Some(value: T)

  datatype Result<+T, +E> = Ok(value: T) | Err(error: E)

  datatype Outcome<+E> = Pass | Fail(error: E)
}
