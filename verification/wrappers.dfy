/** Failure-compatible result types shared by the solver modules. */
module Wrappers {

  /** An optional value: `None` stands for "no candidate" (an empty maximum). */
  datatype Option<+T> = None | Some(value: T)

  /** A computation that either produces a value or fails with an error. */
  datatype Result<+R, +E> = Ok(value: R) | Err(error: E)
}
