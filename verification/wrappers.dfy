/**
  Failure-compatible result types used throughout the model. A C# method that
  throws is modelled as returning `Err(e)`, where `e` names the exception type.
 */
module Wrappers {

  /** The exception types the modelled code throws. */
  datatype Error =
    | ArgumentOutOfRange   // System.ArgumentOutOfRangeException
    | Argument             // System.ArgumentException
    | InvalidOperation     // System.InvalidOperationException
    | NotSupported         // System.NotSupportedException
    | Overflow             // System.OverflowException (a `checked` conversion)
    | IndexOutOfRange      // System.IndexOutOfRangeException (array indexer)
    | InvalidEnumArgument  // System.ComponentModel.InvalidEnumArgumentException
    | InternalError        // PaintDotNet.InternalErrorException
    | KeyNotFound          // System.Collections.Generic.KeyNotFoundException

  datatype Option<+T> = None | Some(value: T) {
    predicate IsFailure() {
      None?
    }

    function PropagateFailure<U>(): Option<U>
      requires None?
    {
      None
    }

    function Extract(): T
      requires Some?
    {
      value
    }
  }

  datatype Result<+T> = Ok(value: T) | Err(error: Error) {
    predicate IsFailure() {
      Err?
    }

    function PropagateFailure<U>(): Result<U>
      requires Err?
    {
      Err(error)
    }

    function Extract(): T
      requires Ok?
    {
      value
    }
  }
}
