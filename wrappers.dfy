/** Option and Result, the two failure-carrying shapes the rest of the model uses
    in place of `null` and of thrown errors. */
module Wrappers {

  /** `None` stands for JavaScript's `null`/`undefined` answer of a lookup. */
  datatype Option<+T> = None | Some(value: T)

  /** `Err` stands for a thrown error. */
  datatype Result<+T, +E> = Ok(value: T) | Err(error: E)
}
