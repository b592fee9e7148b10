/** Results of operations that Python would end by raising an exception. */
module Outcomes {

  /** The exceptions the masked integer can raise, one per cause. */
  datatype Error =
    | BitsNotByteMultiple  // the constructor's assertion that the width is a multiple of 8
    | NegativeBitWidth     // `1 << bits` with a negative width, inside the mask
    | UnsupportedOperand   // an operand that is neither an int nor a masked integer
    | ZeroDivision         // `//` or `%` by zero
    | NegativeShiftCount   // `<<` or `>>` by a negative count
    | NegativeExponent     // `pow` without modulus and a negative exponent
    | Overflow             // `int.to_bytes` of a value that does not fit
    | NotCallable          // calling the `NotImplemented` constant

  datatype Option<+T> = None | Some(value: T)

  datatype Result<+T> = Ok(value: T) | Err(error: Error)
}
