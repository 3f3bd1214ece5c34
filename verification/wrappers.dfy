/** Failure-compatible wrappers shared by the whole model.
    `Option` stands for JavaScript's `undefined`-or-value results, `Result`
    for operations that throw an invariant violation on bad input. */
module Wrappers {

  /** A value that may be absent (`undefined` in the source). */
  datatype Option<+T> = None | Some(value: T) {

    predicate IsFailure() {
      None?
    }

    function PropagateFailure<U>(): Option<U>
      requires None?
    {
      None
    }

    function Extract(): T
      requires Some?
    {
      value
    }
  }

  /** The errors the modelled code raises: the `InvariantViolationError` of
      `lib/invariant.js` when a condition fails, the `ReferenceError`
      JavaScript raises when code evaluates a name that is not bound, and
      the `TypeError` it raises when code reads a property of, or calls,
      the `undefined` a missing module member evaluates to. */
  datatype Error = InvariantViolation(message: string) | ReferenceError(name: string) | TypeError(name: string)

  /** A computation that either produces a value or raises an error. */
  datatype Result<+R> = Success(value: R) | Failure(error: Error) {

    predicate IsFailure() {
      Failure?
    }

    function PropagateFailure<U>(): Result<U>
      requires Failure?
    {
      Failure(error)
    }

    function Extract(): R
      requires Success?
    {
      value
    }
  }

  /** `invariant(condition, message)`: passes, or fails with the message. */
  function Need(condition: bool, message: string): (r: Result<()>)
  {
    if condition then Success(()) else Failure(InvariantViolation(message))
  }

  /** Evaluating the unbound name `name`: always raises a `ReferenceError`. */
  function Unbound(name: string): (r: Result<()>)
  {
    Failure(ReferenceError(name))
  }

  /** Using the member `name` of a module that does not export it: always
      raises a `TypeError`. */
  function Missing(name: string): (r: Result<()>)
  {
    Failure(TypeError(name))
  }
}
