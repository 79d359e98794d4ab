/** The outcome of an operation that the original signals with a raised
    exception (ValueError, TypeError, a failed assertion). */
module Wrappers {

  /** Why an operation raised, named after the check that failed. */
  datatype Error =
    | NegativeDistance          // distance < 0
    | NegativeDotCount          // dotcount < 0
    | TooManyDots               // dotcount > distance + 1
    | NegativeCount             // combinations_count with r < 0
    | GivensTooLong             // leading and trailing givens wider than the ruler
    | GivensTooManyDots         // the givens hold more ones than the dotcount
    | NotABit                   // a given tuple holds a value other than 0 or 1
    | NegativeShift             // a shift by a negative count
    | BadSpacing                // spacing < 1
    | NegativePoint             // a point below 0
    | NegativeLength            // length < 0
    | LengthTooSmall            // length < 1
    | TooFewDots                // ndots < 2
    | EmptyCombo                // max() or min() of an empty combo
    | NotIterable               // "in" applied to a bare integer
    | FloatRange                // range() given a float bound, 2 ** a negative exponent

  datatype Result<+T> = Success(value: T) | Failure(error: Error)
  {
    predicate IsFailure() { Failure? }

    function PropagateFailure<U>(): Result<U>
      requires Failure?
    {
      Failure(error)
    }

    function Extract(): T
      requires Success?
    {
      value
    }
  }

  datatype Option<+T> = None | Some(value: T)
}
