/** The ASCII control characters the ACARS link layer uses, and a small Option type. */
module Ascii {

  type byte = bv8

  const NUL: byte := 0x00
  const SOH: byte := 0x01
  const STX: byte := 0x02
  const ETX: byte := 0x03
  const ETB: byte := 0x17
  const SYN: byte := 0x16
  const DEL: byte := 0x7f

  /** End of text or end of block: the two bytes that close an ACARS block. */
  predicate IsDelimiter(b: byte) {
    b == ETX || b == ETB
  }

  datatype Option<T> = None | Some(value: T)
}
