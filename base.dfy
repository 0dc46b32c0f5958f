/** Machine-level vocabulary shared by the kernel components: fixed-width
    unsigned integers, an optional value, and the record of one `out`
    instruction on an I/O port. */
module Base {

  const U8_LIMIT: int := 0x100
  const U16_LIMIT: int := 0x1_0000
  const U64_LIMIT: int := 0x1_0000_0000_0000_0000

  type byte = x: int | 0 <= x < U8_LIMIT
  type u16 = x: int | 0 <= x < U16_LIMIT
  type u64 = x: int | 0 <= x < U64_LIMIT

  datatype Option<T> = None | Some(value: T)

  /** One byte written to an I/O port with `out dx, al`. */
  datatype PortWrite = PortWrite(port: u16, value: byte)

  /** `(v & 0xFF) as u8`: the low byte of a value. */
  function LowByte(v: nat): byte
  {
    v % 256
  }

  /** `((v >> 8) & 0xFF) as u8`: the second-lowest byte of a value. */
  function HighByte(v: nat): byte
  {
    (v / 256) % 256
  }

  /** A 16-bit value is recovered from its high and low bytes, so a device
      programmed with the two bytes receives exactly the value. */
  lemma ByteSplitRoundTrip(v: u16)
    ensures HighByte(v) * 256 + LowByte(v) == v
  {
  }
}
