/** Outcome types shared by the decoding engine.

  The source signals failure by raising Python exceptions and catching them
  further up (`read_register_or_false`, `read_registers`, `find_batteries`).
  The model makes every raise an explicit `Raised` value so that each caller's
  `try`/`except` becomes a `match`.
 */
module Base {

  datatype Option<+T> = None | Some(value: T)

  /** The exceptions the decoding path can raise. */
  datatype Exception =
    | CommunicationError      // the transport (minimalmodbus) gave no usable reply
    | IndexError              // the reply holds fewer words than the loop indexes
    | OddLengthString         // binascii.unhexlify on an odd number of hex digits
    | NonHexadecimalDigit     // binascii.unhexlify on a character that is not a hex digit
    | UndecodedByte           // a byte >= 0x80 reached bytes.decode(); see README "Left out"
    | TypeError               // hex() applied to a value that is not an integer

  /** The value of a Python call: either what it returned or what it raised. */
  datatype Result<+T> = Ok(value: T) | Raised(error: Exception)
}
