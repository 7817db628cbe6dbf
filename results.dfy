/**
 * The failures the library reports. Every one of them is an exception in
 * the original code; the model returns it as a value instead.
 */
module Results {

  datatype Error =
    | InvalidRange     // IllegalArgumentException: the maximum is less than the minimum
    | NegativeAmount   // IllegalArgumentException: an extend or trim amount is negative
    | ZeroDenominator  // IllegalArgumentException: a Rational built with denominator 0
    | Unsupported      // UnsupportedOperationException: an operation left unimplemented

  datatype Result<+T> = Success(value: T) | Failure(error: Error)
}
