/** Option and Result wrappers, and the exceptions of the modelled .NET code. */
module Wrappers {

  datatype Option<+T> = None | Some(value: T)

  /** The .NET exceptions the modelled code can raise, as values. */
  datatype Error =
    | ArgumentOutOfRange   // System.ArgumentOutOfRangeException
    | Argument             // System.ArgumentException
    | Overflow             // System.OverflowException
    | DivideByZero         // System.DivideByZeroException
    | InvalidOperation     // System.InvalidOperationException
    | InvalidEnum          // ThrowIf.InvalidEnum
    | InsufficientBuffer   // a serializer given a destination that is too short

  datatype Result<+T> = Ok(value: T) | Err(error: Error)
}
