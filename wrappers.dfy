/** Failure-carrying result types used for the exceptions that the modelled code throws. */
module Wrappers {

  datatype Option<+T> = None | Some(value: T)

  /** The kinds of exception the modelled code raises. */
  datatype Error =
    | OutOfBounds            // a position outside the loaded area
    | UnregisteredBlock      // a palette entry stamped with another volume's uuid
    | IndexOutOfRange        // an array or list read past its end
    | ArrayTooLarge          // a block grid that does not fit one JVM array
    | InvalidConfiguration   // chunk bit size, thread count, a malformed string
    | InvalidPalette         // a palette mapping with a gap below its largest id
    | NotLinked              // a palette used before it is linked to a volume
    | AlreadyLinked          // a palette linked or populated twice
    | NoSuchElement          // the maximum of an empty collection
    | VarintTooLong          // a varint longer than five bytes
    | DivisionByZero         // an integer division by zero
    | BufferUnderflow        // a buffer read past its limit
    | BufferOverflow         // a buffer write past its limit
    | UnknownPaletteType     // a palette type byte other than 0 or 1
    | NegativeArraySize      // an array allocated with a negative length

  datatype Result<+R> = Ok(value: R) | Err(error: Error)

  datatype Outcome = Pass | Fail(error: Error)
}
