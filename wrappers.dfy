/** Failure-compatible result types and the error kinds the core raises. */
module Wrappers {

  datatype Option<+T> = None | Some(value: T)

  /** The two exceptions of the system: the input is not the supported format at all,
      or it has the right shape but breaks a required invariant; and the script's own
      TypeError, raised when a property of an undefined value is read. */
  datatype Error = WrongFileFormat | InvalidData | TypeError

  datatype Result<+R> = Success(value: R) | Failure(error: Error) {
    predicate IsFailure() {
      Failure?
    }

    function PropagateFailure<U>(): Result<U>
      requires Failure?
    {
      Failure(error)
    }

    function Extract(): R
      requires Success?
    {
      value
    }
  }

  /** The outcome of an operation that returns nothing but may throw. */
  datatype Outcome = Pass | Fail(error: Error) {
    predicate IsFailure() {
      Fail?
    }

    function PropagateFailure(): Outcome
      requires Fail?
    {
      this
    }
  }
}
