/** The exceptions the camera code can raise, and the result of a call that either
    returns a value or raises one of them. */
module Outcomes {

  /** The Python exceptions that the modelled code raises or lets escape. */
  datatype Exception =
    | ValueError          // chr() of a non-byte, int('', 16), I/O on a port that is not open
    | IndexError          // indexing a reply that is too short
    | TypeError           // unpacking the False that reply2hex_pic returns
    | KeyError            // a baud rate missing from a lookup table
    | ZeroDivisionError   // n_bytes % packet_size with packet_size == 0

  /** Either the call returned `value` or it raised `exc`. */
  datatype Outcome<+T> = Return(value: T) | Raise(exc: Exception)

  datatype Option<+T> = None | Some(value: T)
}
