/** Optional values and results with an error path, used wherever the C# code returns null or throws. */
module Wrappers {
  datatype Option<T> = None | Some(value: T)

  /** The .NET exceptions the modelled code can throw. */
  datatype Exception =
    | ArgumentException
    | ArgumentOutOfRangeException
    | DivideByZeroException
    | FormatException
    | IndexOutOfRangeException
    | InvalidCastException
    | InvalidOperationException
    | KeyNotFoundException
    | NotSupportedException
    | NullReferenceException
    | OverflowException
    | SwitchExpressionException

  /** `Failure` carries the exception the source would throw. */
  datatype Result<T> = Success(value: T) | Failure(error: Exception)
  {
    predicate IsFailure() { Failure? }
  }
}
