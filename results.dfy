/** Outcomes of operations that can throw. */
module Results {

  /** The exceptions the magnitude engine can raise. */
  datatype Failure =
    | InvalidArrayLength  // a typed array allocated with a negative length (RangeError)
    | DivisionByZero      // "Division by zero."
    | NotANumber          // "RedScale: Is not a number."

  datatype Result<T> = Ok(value: T) | Err(error: Failure)

  /** A JavaScript number that may be NaN: None stands for NaN. */
  datatype Option<T> = None | Some(value: T)
}
