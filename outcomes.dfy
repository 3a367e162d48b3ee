/** How an operation of the reader ends: with a value (and, for the pure
    specification, the state it leaves), or with one of the exceptions the
    Python reader lets escape. */
module Outcomes {

  /** The exceptions the reader can raise, named by what goes wrong. */
  datatype Fault =
    | ShortRead        // struct.error: the read returned fewer bytes than the format needs
    | BadFormat        // struct.error: "bad char in struct format"
    | NegativeSeek     // OSError (EINVAL): seek to a negative offset
    | IndexOutOfRange  // IndexError: a list index past the end
    | BadCodePoint     // ValueError: chr() of a value outside 0..0x10FFFF
    | NoTermination    // the IFD chain walk did not end within the given fuel

  /** A value that may be absent. */
  datatype Option<T> = None | Some(value: T)

  /** What a method of the reader returns: a value or an exception. */
  datatype Result<T> = Ok(value: T) | Raised(fault: Fault)

  /** What a specification function returns: a value together with the state
      after the step, or the exception that aborts it. */
  datatype Outcome<T, S> = Done(value: T, state: S) | Failed(fault: Fault) {

    /** The result a caller sees, without the state. */
    function ToResult(): Result<T> {
      if Done? then Ok(value) else Raised(fault)
    }
  }
}
