/** Option, Result and Outcome values, used for parses that may fail and for
    the exceptions the bot lets propagate to its event loop. */
module Wrappers {

  datatype Option<+T> = None | Some(value: T)

  datatype Result<+T, +E> = Ok(value: T) | Err(error: E)

  /** The result of a statement that returns nothing but may raise. */
  datatype Outcome<+E> = Pass | Fail(error: E)
}
