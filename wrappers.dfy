/** Option and Result values used for the error paths of the analysis. */
module Wrappers {

  datatype Option<+T> = None | Some(value: T)

  /** The ways in which the analysis stops with a Python exception. */
  datatype Failure =
    | DivisionByZero   // ZeroDivisionError from an int or float division
    | EmptySequence    // ValueError from max() or min() of an empty list
    | UnknownMode      // the mode is neither "time" nor "fps", so no table is ever bound

  datatype Result<+R> = Ok(value: R) | Err(failure: Failure)
}
