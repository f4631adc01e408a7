/** Failure-compatible wrappers: `Option` stands for a TypeScript value that may be
    `undefined`, `Result` for an async call that either resolves or throws. */
module Wrappers {

  datatype Option<+T> = None | Some(value: T)

  datatype Result<+R, +E> = Ok(value: R) | Err(error: E)
}
