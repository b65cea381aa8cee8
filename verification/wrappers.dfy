/** Failure-compatible wrappers shared by every module of the model.

    The modelled C# code signals failure by throwing .NET exceptions; a thrown exception
    becomes a `Failure` carrying the exception it stands for, and a `null` reference
    becomes `None`.
 */
module Wrappers {

  /** A value that may be absent (a C# reference that may be `null`). */
  datatype Option<+T> = None | Some(value: T)

  /** The .NET exceptions that the modelled code can raise. */
  datatype Exception =
    | NotSupported(message: string)                    // System.NotSupportedException
    | ArgumentOutOfRange(paramName: string, actual: Option<int>)  // System.ArgumentOutOfRangeException
    | Argument(message: string)                        // System.ArgumentException
    | NullReference                                    // System.NullReferenceException
    | RemoteFailure                                    // anything the Drive client throws

  /** What the `List<T>` indexer throws for a position outside the list: an
      `ArgumentOutOfRangeException` for parameter "index" that carries no actual value. */
  const IndexerOutOfRange: Exception := ArgumentOutOfRange("index", None)

  /** Either a returned value or the exception that was thrown instead. */
  datatype Result<+T> = Success(value: T) | Failure(error: Exception) {

    predicate IsFailure() {
      Failure?
    }

    function PropagateFailure<U>(): Result<U>
      requires Failure?
    {
      Failure(error)
    }

    function Extract(): T
      requires Success?
    {
      value
    }
  }

  /** The completion of an awaited call that returns nothing: it either finishes or throws. */
  datatype Outcome = Pass | Fail(error: Exception)
}
