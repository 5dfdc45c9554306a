/** Failure-carrying values used in place of the exceptions the library throws. */
module Results {

  datatype Option<+T> = None | Some(value: T)

  /** The error conditions a caller of the UUID and state helpers can observe. */
  datatype Error =
    | FormatError(input: string)              // malformed textual UUID
    | TruncatedInput(needed: nat, available: nat)  // a byte source ran dry
    | WrongLength(expected: nat, actual: nat)      // a byte array of the wrong size

  datatype Result<+T> = Ok(value: T) | Err(error: Error)
}
