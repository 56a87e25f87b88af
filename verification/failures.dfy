/** The ways a sampling run ends without a result. The engine returns no
    partial result on any of them: either the full tuple or an exception. */
module Failures {

  datatype Failure =
    /** Python's ZeroDivisionError: `(i - burn_in) % thin` with thin == 0,
        or `accepted / iterations` with iterations == 0. */
    | ZeroDivision
    /** numpy rejects a percentile outside [0, 100]. */
    | PercentileOutOfRange
    /** A percentile of an empty sample array. */
    | EmptySamples

  /** A failure-compatible result, usable with `:-`. */
  datatype Result<+T> = Ok(value: T) | Err(failure: Failure) {

    predicate IsFailure() {
      Err?
    }

    function PropagateFailure<U>(): Result<U>
      requires Err?
    {
      Err(failure)
    }

    function Extract(): T
      requires Ok?
    {
      value
    }
  }
}
