/** Failure-carrying results: the `Option` of Rust's accessors, the
    `Result` of every fallible encode and decode step, and the `Outcome`
    of `serialize_into`, which returns `Result<()>`. */
module Wrappers {

  datatype Option<+T> = None | Some(value: T)

  datatype Result<+T, +E> = Ok(value: T) | Err(error: E)

  datatype Outcome<+E> = Pass | Fail(error: E)
}
