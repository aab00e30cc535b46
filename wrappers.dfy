/** Option and Result for the model, and the kinds of exception the JavaScript
    code can throw; an exception aborts the whole operation, so an operation that
    may throw returns a Result whose Failure names what was thrown. */
module Wrappers {

  datatype Option<+T> = None | Some(value: T)

  datatype Result<+R> = Success(value: R) | Failure(error: Thrown)

  /** The exceptions of the modelled code: calling something that is not a
      function or reading a property of `undefined` (TypeError), an invalid
      array length (RangeError), an explicit `throw new Error(..)`, and a failed
      `assert.strictEqual`. */
  datatype Thrown =
    | TypeError(reason: string)
    | RangeError(reason: string)
    | Error(message: string)
    | AssertionError(message: string)
}
