/**
 * Optional values and the outcome of a step that may throw.
 *
 * The Java code signals failure with exceptions; the model returns a
 * `Result` whose error names the exception that would have been thrown.
 */
module Outcomes {

  datatype Option<+T> = None | Some(value: T)

  /** The exceptions that can escape from `HtmlCompressor.compress`. */
  datatype Error =
    /** `Integer.parseInt` was given text that is not a decimal `int`. */
    | NumberFormat(text: string)
    /** `List.get(index)` on a list holding `size` entries. */
    | IndexOutOfBounds(index: nat, size: nat)
    /** The external JavaScript or CSS minifier gave up on its input. */
    | MinifierFailure(message: string)

  datatype Result<+T> = Ok(value: T) | Err(error: Error) {

    predicate IsFailure() {
      Err?
    }

    function PropagateFailure<U>(): Result<U>
      requires Err?
    {
      Err(error)
    }

    function Extract(): T
      requires Ok?
    {
      value
    }
  }

  /** `prefix` written in front of a successful text; a failure passes through. */
  function Prepend(prefix: string, r: Result<string>): Result<string> {
    match r
    case Ok(s) => Ok(prefix + s)
    case Err(e) => Err(e)
  }
}
