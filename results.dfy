/** Failure-carrying values for the archive's error paths: each Python exception the
    core raises becomes one `Error` value. */
module Results {

  datatype Option<+T> = None | Some(value: T)

  /** The exceptions raised by the archive core. */
  datatype Error =
    | ModeViolation   // TypeError: append on a read-only archive
    | FormatError     // AssertionError: the magic does not match
    | Overflow        // OverflowError: int.to_bytes cannot fit the value
    | NameEncoding    // UnicodeEncodeError: the entry name is not ASCII
    | NameDecoding    // UnicodeDecodeError: the stored name bytes are not ASCII
    | BadSizeMode     // IndexError: the size mode indexes past CONV_MODE
    | ShortRead       // IndexError: a one-byte read returned nothing
    | Truncated       // AssertionError: fewer payload bytes than the header declares
    | Integrity       // AssertionError: stored and computed CRC differ
    | NotFound        // ValueError: no entry carries the requested name, or the lookup's walk raised IndexError

  datatype Result<+T> = Success(value: T) | Failure(error: Error)

  datatype Outcome = Pass | Fail(error: Error)
}
