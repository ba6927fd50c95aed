/** Failure-carrying results for the package functions that raise an exception. */
module Results {

  datatype Option<+T> = None | Some(value: T)

  /** The exceptions (and floating-point NaN outcomes) the modelled code can produce. */
  datatype Error =
    | ModeCountMismatch     // len(modes) != len(natural_freqs)
    | NegativeLength        // length_nonlin < 0
    | NegativeStart         // some start_loc < 0
    | RegionExceedsDelay    // length_nonlin + start_loc > delays[delay_index]
    | IndexOutOfRange       // a Python list or matrix index outside [-len, len)
    | BadSign               // a creation/annihilation sign other than 1 or -1
    | BadArgumentType       // an argument of neither of the accepted Python types
    | NotSubscriptable      // `s[0,0]` applied to the plain complex 0j of an empty sum
    | ZeroDivision          // Python's ZeroDivisionError on a complex division
    | Undefined             // a numpy division by zero, giving NaN / inf instead of raising

  datatype Result<+T> = Ok(value: T) | Err(error: Error)
}
