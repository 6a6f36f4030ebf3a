/** The error values of the interpolator and the two result wrappers it uses. */
module Errors {

  /** Every way an interpolation can fail. */
  datatype Error =
    | InvalidArgs                // ErrInvalidArgs: placeholder count differs from the argument count
    | InvalidParseArgs           // ErrInvalidParseArgs: arguments consumed differ from the argument count
    | UnknownType(argPos: nat)   // the `default` branch of the type switch, with the 1-based argument position
    | YearOutOfRange(year: int)  // appendDateTime: the (rounded) year is outside [1, 9999]

  datatype Option<+T> = None | Some(value: T)

  datatype Result<+T> = Ok(value: T) | Err(error: Error)
}
