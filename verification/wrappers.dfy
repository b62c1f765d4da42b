/** Failure-compatible result types shared by the other modules. */
module Wrappers {

  datatype Option<+T> = None | Some(value: T)

  /** The outcome of an operation that throws or raises in the source:
      `Err` stands for the exception, `error` for what it reports. */
  datatype Result<+T, +E> = Ok(value: T) | Err(error: E)
}
