/** Option and Result, the two failure-carrying types the assembler uses. */
module Wrappers {

  /** Rust's `Option<T>`. */
  datatype Option<+T> = None | Some(value: T)

  /** A computation that either produces a value or stops with an error. The source
      stops the whole process (`process::exit(1)`) where this model returns `Err`. */
  datatype Result<+T, +E> = Ok(value: T) | Err(error: E)
}
