/** The byte source of the serial link, seen as an immutable sequence of
    bytes plus a read position.  A read past the end of the sequence stands
    for `serialGetchar` returning -1 (transport failure or end of input). */
module Stream {

  /** One byte delivered by the serial port. */
  type Byte = b: int | 0 <= b < 0x100

  /** The two ways the framing protocol can fail. */
  datatype Error =
    | Io                                        // a byte read failed
    | UnexpectedMarker(expected: int, got: int) // a status marker did not match

  /** The outcome of an operation on the byte source: the value read and the
      position just after the last byte consumed, or the error. */
  datatype Result<+T> = Ok(value: T, next: nat) | Err(error: Error)

  /** Reads the byte at `pos`; fails when the source is exhausted. */
  function ReadByte(src: seq<Byte>, pos: nat): (r: Result<Byte>)
    ensures r.Ok? <==> pos < |src|
    ensures r.Ok? ==> r.value == src[pos] && r.next == pos + 1
    ensures r.Err? ==> r.error == Io
  {
    if pos < |src| then Ok(src[pos], pos + 1) else Err(Io)
  }
}
