/** Failure-carrying values shared by the recovery modules. */
module Outcomes {

  datatype Option<+T> = None | Some(value: T)

  /** The ways a recovery call can fail (each one is a thrown error in the original code). */
  datatype Error =
    | InvalidBase          // the base of a share is NaN or outside [2, 36]
    | NotANumber           // BigInt(NaN): the value text has no leading digit in its base
    | DivisionByZero       // a BigInt division by a zero denominator (two points share an x)
    | NotEnoughPoints      // fewer than two points were supplied
    | NoValidCombination   // no subset of any size could be interpolated

  datatype Result<+T> = Ok(value: T) | Err(error: Error)
}
