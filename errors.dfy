/** Error conditions of the Shamir core and the result wrappers that carry them. */
module Errors {

  /** One constructor per error the library can report, plus the runtime panic
      that `combine` runs into when every share is empty. */
  datatype Error =
    | ThresholdAboveN          // "threshold must be less than or equal to n"
    | ThresholdNotPositive     // "threshold must be greater than 0"
    | CountNotPositive         // "n must be greater than 0"
    | NilSecret                // "nil secret"
    | OddSecret                // "secret must be a multiple of 2 bytes"
    | RandomExhausted          // the random source ran dry (io.EOF / io.ErrUnexpectedEOF)
    | NilShares                // "nil shares"
    | InconsistentShareLength  // "inconsistent share length"
    | BufferTooSmall           // binary.Decode: a share is shorter than the words asked for
    | SingularMatrix           // "matrix is singular"
    | NegativeLength           // runtime panic: make([]uint16, -1)

  datatype Result<T> = Ok(value: T) | Err(error: Error)

  datatype Outcome = Pass | Fail(error: Error)
}
