/**
  What a call into an I/O library did, as seen by its caller.
 */
module Io {

  /** An I/O call moved up to `n` bytes, or threw `IOException`. */
  datatype IoResult = Moved(n: nat) | Fault

  /** How a handler left: normally, or by an unchecked exception that
      escapes to the caller (and skips the rest of the handler). */
  datatype Exit = Returned | Threw
}
