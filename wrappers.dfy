/** Option, Result and Outcome: the values that stand for Python's `None`
    returns and raised exceptions in this model. */
module Wrappers {

  datatype Option<+T> = None | Some(value: T)

  /** A computation that produced a value or raised an error. */
  datatype Result<+R, +E> = Ok(value: R) | Err(error: E)

  /** An operation run for its effect: it completed, or it raised an error. */
  datatype Outcome<+E> = Pass | Fail(error: E)
}
