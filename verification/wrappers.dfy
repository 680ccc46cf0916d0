/** Failure-carrying result types shared by every module of the model. */
module Wrappers {

  /** An optional value: a lookup that may find nothing, a parse that may fail. */
  datatype Option<+T> = None | Some(value: T)

  /** The outcome of an operation that the original program may abandon with an exception. */
  datatype Result<+T, +E> = Ok(value: T) | Err(error: E)
}
