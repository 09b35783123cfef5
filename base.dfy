/**
 * Shared building blocks: optional values, results, the errors the program
 * passes around, and the fixed-width integer types Go uses.
 */
module Base {

  datatype Option<+T> = None | Some(value: T)

  datatype Result<+T, +E> = Ok(value: T) | Err(error: E)

  /** Why strconv.Atoi rejected a text. */
  datatype NumCause = Syntax | OutOfRange

  /**
   * The errors of the modelled code. `ErrClosed` is net.ErrClosed (reading from
   * or writing to a closed connection); `Message` is an errors.New/fmt.Errorf
   * value with its text; `NumError` is strconv's error value; `External` stands
   * for an error produced by code outside the model (sockets, pcap, the OS).
   */
  datatype Error =
    | ErrClosed
    | Message(text: string)
    | NumError(fn: string, num: string, cause: NumCause)
    | External(code: nat)

  newtype uint8 = x: int | 0 <= x < 0x100
  newtype uint16 = x: int | 0 <= x < 0x1_0000
  newtype uint32 = x: int | 0 <= x < 0x1_0000_0000

  const MaxUint32: uint32 := 0xFFFF_FFFF
}
