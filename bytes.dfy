/** Fixed-width unsigned integers as they appear on the SOCKS5 wire. */
module Bytes {

  /** Rust `u8`. */
  type Byte = x: int | 0 <= x < 0x100

  /** Rust `u16`: ports and IPv6 segments. */
  type U16 = x: int | 0 <= x < 0x1_0000

  /** `u16::from_be_bytes([hi, lo])`: network byte order, high byte first. */
  function U16FromBe(hi: Byte, lo: Byte): U16
  {
    hi * 0x100 + lo
  }

  /** `u16::to_be_bytes`. */
  function U16ToBe(v: U16): (r: seq<Byte>)
    ensures |r| == 2
  {
    [v / 0x100, v % 0x100]
  }

  /** The two conversions are inverse to each other, in both directions. */
  lemma U16BeRoundTrip(v: U16, hi: Byte, lo: Byte)
    ensures U16FromBe(U16ToBe(v)[0], U16ToBe(v)[1]) == v
    ensures U16ToBe(U16FromBe(hi, lo)) == [hi, lo]
  {
  }
}
