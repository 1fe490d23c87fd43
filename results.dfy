/**
 * Failure-carrying values for the C++ exceptions of the weather program.
 * A thrown std::out_of_range, std::invalid_argument or std::runtime_error
 * becomes an Err / Fail value; NaN readings become None.
 */
module Results {

  datatype Option<+T> = None | Some(value: T)

  /** The exception classes the modelled code throws. */
  datatype Error =
    | OutOfRange       // std::out_of_range (Vector::operator[], map::at, string::substr, stoi overflow)
    | InvalidArgument  // std::invalid_argument (Date and MyTime setters, stoi without digits)
    | RuntimeError     // std::runtime_error (wrong separator in parseDate / parseTime)

  datatype Result<+T> = Ok(value: T) | Err(error: Error)

  /** The outcome of a `void` operation that may throw. */
  datatype Outcome = Pass | Fail(error: Error)
}
