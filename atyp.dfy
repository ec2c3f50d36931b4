/** The address-type tag (ATYP) of section 5 of RFC 1928. */
module AddressType {
  import opened Bytes
  import opened Errors

  datatype ATYP = V4 | DomainName | V6

  function AtypToU8(a: ATYP): Byte
  {
    match a
    case V4 => 0x01
    case DomainName => 0x03
    case V6 => 0x04
  }

  /** The match on byte 3 of a request or a reply. */
  function AtypFromU8(b: Byte): Option<ATYP>
  {
    if b == 0x01 then Some(V4)
    else if b == 0x03 then Some(DomainName)
    else if b == 0x04 then Some(V6)
    else None
  }

  /** Exactly 01, 03 and 04 are address types, and the two maps are inverse. */
  lemma AtypCodec(b: Byte, a: ATYP)
    ensures AtypFromU8(b).Some? <==> b in {0x01, 0x03, 0x04}
    ensures AtypFromU8(b).Some? ==> AtypToU8(AtypFromU8(b).value) == b
    ensures AtypFromU8(AtypToU8(a)) == Some(a)
  {
  }
}
