/** Outcomes of the operations of the dump transformer. Python raises an exception where the
    model returns `Err`; the kind of exception is kept because the run stops on the first one. */
module Results {

  /** The exceptions the modelled code can raise. */
  datatype Error =
    | ValueError   // int() of a string that is not an integer literal
    | IndexError   // a list index past the end (the coefficients list, a missing tab field)
    | ParseError   // the lenient calendar parser rejected the literal
    | TimeError    // the astronomical time library rejected the formatted timestamp

  datatype Option<+T> = None | Some(value: T)

  datatype Result<+T> = Ok(value: T) | Err(error: Error)
}
