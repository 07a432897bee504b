/** Failure-carrying values shared by the whole model. */
module Wrappers {

  /** A value that may be absent: a table cell that was never set, a foreign codec that rejected its input. */
  datatype Option<+T> = None | Some(value: T)

  /** The outcome of an operation that can raise. */
  datatype Result<+T, +E> = Success(value: T) | Failure(error: E)

  /** The exceptions the core can raise, one per Python exception class that reaches the caller. */
  datatype Error =
    | InvalidHex      // binascii.Error raised by unhexlify
    | InvalidBase32   // binascii.Error raised by b32decode
    | InvalidBase64   // binascii.Error raised by b64decode
    | InvalidUtf8     // UnicodeDecodeError raised by bytes.decode('utf8')
    | NoItem          // AttributeError: text() called on an item that is None
    | UnboundLocal    // UnboundLocalError: a loop variable that no iteration bound
    | Overflow        // OverflowError raised by int.to_bytes
}
