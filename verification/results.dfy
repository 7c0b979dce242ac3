/** Failure values shared by the field and curve arithmetic.

    Every exception the engine raises on a malformed operand becomes an
    `Err` carrying one of the `Error` kinds below; a successful call yields
    `Ok`. `Result` is failure-compatible, so `:-` propagates the first error
    exactly as a Python exception unwinds the caller.
 */
module Results {

  /** One constructor per distinct `raise` in the engine. */
  datatype Error =
    | ModulusNotPositive   // FieldInt constructor: modulus <= 0
    | ValueOutOfRange      // FieldInt constructor: value outside [0, modulus)
    | ModulusMismatch      // FieldInt binary operation on different moduli
    | DivisionByZero       // reciprocal of the zero element
    | NotCoprime           // reciprocal when gcd(modulus, value) != 1
    | ModuliMustMatch      // Point constructor: a coordinate or coefficient has another modulus
    | MissingCoordinate    // Point constructor: x given but y or z absent (attribute lookup on None)
    | CurveMismatch        // Point addition across different (a, b, modulus)

  /** An optional coordinate: `None` plays the role of Python's `None`. */
  datatype Option<+T> = None | Some(value: T)

  datatype Result<+T> = Ok(value: T) | Err(error: Error) {

    predicate IsFailure() {
      Err?
    }

    function PropagateFailure<U>(): Result<U>
      requires Err?
    {
      Err(error)
    }

    function Extract(): T
      requires Ok?
    {
      value
    }
  }
}
