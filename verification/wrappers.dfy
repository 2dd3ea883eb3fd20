/** Failure-carrying values shared by the whole model.

  The shell is written in C#, where absent values are `null` and errors are
  exceptions. Here a possibly-null value is an `Option`, a call that either
  returns or throws is a `Result`, and a state transition that may throw after
  it has already changed part of the state is a `Mutation`: it always carries
  the state as it was when control left the operation.
 */
module Wrappers {

  datatype Option<+T> = None | Some(value: T) {
    function GetOr(default: T): T {
      match this
      case Some(v) => v
      case None => default
    }
  }

  /** The .NET exception kinds the core raises or lets escape. */
  datatype Exception =
    | ArgumentNull(param: string)
    | Argument(message: string)
    | ArgumentOutOfRange
    | InvalidOperation(message: string)
    | KeyNotFound
    | IndexOutOfRange
    | NotSupported
    | NullReference
    | Raised(message: string)
    | ApplicationError(message: string)

  /** The `Message` property of an exception. */
  function Message(e: Exception): string {
    match e
    case ArgumentNull(p) => "Value cannot be null. Parameter name: " + p
    case Argument(m) => m
    case ArgumentOutOfRange => "Specified argument was out of the range of valid values."
    case InvalidOperation(m) => m
    case KeyNotFound => "The given key was not present in the dictionary."
    case IndexOutOfRange => "Index was outside the bounds of the array."
    case NotSupported => "Specified method is not supported."
    case NullReference => "Object reference not set to an instance of an object."
    case Raised(m) => m
    case ApplicationError(m) => m
  }

  /** The type name `ToString()` puts in front of the message. */
  function TypeName(e: Exception): string {
    match e
    case ArgumentNull(_) => "System.ArgumentNullException"
    case Argument(_) => "System.ArgumentException"
    case ArgumentOutOfRange => "System.ArgumentOutOfRangeException"
    case InvalidOperation(_) => "System.InvalidOperationException"
    case KeyNotFound => "System.Collections.Generic.KeyNotFoundException"
    case IndexOutOfRange => "System.IndexOutOfRangeException"
    case NotSupported => "System.NotSupportedException"
    case NullReference => "System.NullReferenceException"
    case Raised(_) => "System.Exception"
    case ApplicationError(_) => "System.ApplicationException"
  }

  /** `e.ToString()` without the stack trace. */
  function Describe(e: Exception): string {
    TypeName(e) + ": " + Message(e)
  }

  /** A call that returns a value or throws. */
  datatype Result<+T> = Ok(value: T) | Throw(error: Exception) {
    predicate IsFailure() {
      Throw?
    }

    function PropagateFailure<U>(): Result<U>
      requires Throw?
    {
      Throw(error)
    }

    function Extract(): T
      requires Ok?
    {
      value
    }
  }

  /** A state change that may throw part-way; `state` is the state left behind. */
  datatype Mutation<+S> = Done(state: S) | Stopped(state: S, error: Exception)
}
