/** Failure-compatible wrappers and the exceptions the choice engine can raise. */
module Wrappers {

  datatype Option<+T> = None | Some(value: T)

  /** A value, or the exception the C# code would throw instead of returning it. */
  datatype Result<+T, +E> = Ok(value: T) | Err(error: E) {
    predicate IsFailure() {
      Err?
    }

    function PropagateFailure<U>(): Result<U, E>
      requires Err?
    {
      Err(error)
    }

    function Extract(): T
      requires Ok?
    {
      value
    }
  }

  /** The .NET exceptions that escape from building a choice. */
  datatype Exception =
    | FormatException(input: string)       // int.Parse on text that is not `-?digits`
    | OverflowException(input: string)     // int.Parse on digits outside the 32-bit range
    | InvalidDataException(message: string) // RangeValueChoice validation
}
