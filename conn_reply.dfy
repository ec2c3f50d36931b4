/** The server's connection reply (section 6 of RFC 1928):
    VER REP RSV ATYP BND.ADDR BND.PORT. */
module ConnReplyCodec {
  import opened Bytes
  import opened Errors
  import opened Parse
  import opened AddressType
  import opened ConnAddr

  /** The nine reply codes 00 to 08. */
  datatype Rep =
    | Succeeded
    | GeneralFailure
    | ConnectionNotAllowed
    | NetworkUnreachable
    | HostUnreachable
    | ConnectionRefused
    | TTLExpired
    | CommandNotSupported
    | AddressTypeNotSupported

  function RepToU8(rep: Rep): Byte
  {
    match rep
    case Succeeded => 0x00
    case GeneralFailure => 0x01
    case ConnectionNotAllowed => 0x02
    case NetworkUnreachable => 0x03
    case HostUnreachable => 0x04
    case ConnectionRefused => 0x05
    case TTLExpired => 0x06
    case CommandNotSupported => 0x07
    case AddressTypeNotSupported => 0x08
  }

  /** The match on byte 1 of a reply. */
  function RepFromU8(b: Byte): Option<Rep>
  {
    match b
    case 0x00 => Some(Succeeded)
    case 0x01 => Some(GeneralFailure)
    case 0x02 => Some(ConnectionNotAllowed)
    case 0x03 => Some(NetworkUnreachable)
    case 0x04 => Some(HostUnreachable)
    case 0x05 => Some(ConnectionRefused)
    case 0x06 => Some(TTLExpired)
    case 0x07 => Some(CommandNotSupported)
    case 0x08 => Some(AddressTypeNotSupported)
    case _ => None
  }

  /** Exactly the bytes 00 to 08 are reply codes, and the two maps are inverse. */
  lemma RepCodec(b: Byte, rep: Rep)
    ensures RepFromU8(b).Some? <==> b <= 0x08
    ensures RepFromU8(b).Some? ==> RepToU8(RepFromU8(b).value) == b
    ensures RepFromU8(RepToU8(rep)) == Some(rep)
  {
  }

  /** `ConnReply::new` is this constructor. VER and RSV are kept as given. */
  datatype ConnReply = ConnReply(ver: Byte, rep: Rep, rsv: Byte, atyp: ATYP, bnd: AddrPort)

  /** The wire form of a reply. */
  function ConnReplyBytes(r: ConnReply): seq<Byte>
  {
    [r.ver, RepToU8(r.rep), r.rsv, AtypToU8(r.atyp)] + AddrPortBytes(r.bnd)
  }

  /** `ConnReply::to_bytes`: the four header bytes, then the address field. */
  method ConnReplyToBytes(r: ConnReply) returns (buf: seq<Byte>)
    ensures buf == ConnReplyBytes(r)
    ensures buf[..4] == [r.ver, RepToU8(r.rep), r.rsv, AtypToU8(r.atyp)]
    ensures r.bnd.V4? ==> |buf| == 4 + 6
    ensures r.bnd.V6? ==> |buf| == 4 + 18
    ensures r.bnd.Domain? ==> |buf| == 4 + 1 + |r.bnd.name| + 2 && buf[4] == |r.bnd.name| % 0x100
    ensures buf[|buf| - 2..] == U16ToBe(r.bnd.port)
  {
    buf := [r.ver, RepToU8(r.rep), r.rsv, AtypToU8(r.atyp)];
    buf := ExtendWithAddrPort(buf, r.bnd);
  }

  /** `ConnReply::try_from`, with the length byte of a domain address read
      only when it is there (see DecodeAddrPortCorrected). An unknown REP
      is reported as `ConnRequestTooShort`, as the source does. */
  function ConnReplyTryFrom(buf: seq<Byte>): Result<ConnReply>
  {
    if |buf| < 4 then Err(ReplyTooShort)
    else
      match RepFromU8(buf[1])
      case None => Err(ConnRequestTooShort)
      case Some(rep) =>
        match AtypFromU8(buf[3])
        case None => Err(InvalidAddressType(buf[3]))
        case Some(atyp) =>
          match DecodeAddrPort(buf, atyp)
          case Err(e) => Err(e)
          case Ok(bnd) => Ok(ConnReply(buf[0], rep, buf[2], atyp, bnd))
  }

  /** The checks in the order they are made: length, then reply code, then
      address type, then the address. VER and RSV are copied unchecked. */
  lemma ConnReplyTryFromSpec(buf: seq<Byte>)
    ensures |buf| < 4 ==> ConnReplyTryFrom(buf) == Err(ReplyTooShort)
    ensures |buf| >= 4 && buf[1] > 0x08 ==> ConnReplyTryFrom(buf) == Err(ConnRequestTooShort)
    ensures |buf| >= 4 && buf[1] <= 0x08 && buf[3] !in {0x01, 0x03, 0x04} ==>
              ConnReplyTryFrom(buf) == Err(InvalidAddressType(buf[3]))
    ensures |buf| >= 4 && buf[1] <= 0x08 && buf[3] in {0x01, 0x03, 0x04} ==>
              var atyp := AtypFromU8(buf[3]).value;
              ConnReplyTryFrom(buf) ==
                match DecodeAddrPort(buf, atyp)
                case Err(e) => Err(e)
                case Ok(bnd) => Ok(ConnReply(buf[0], RepFromU8(buf[1]).value, buf[2], atyp, bnd))
    ensures ConnReplyTryFrom(buf).Ok? ==>
              var r := ConnReplyTryFrom(buf).value;
              r.ver == buf[0] && RepToU8(r.rep) == buf[1] && r.rsv == buf[2] &&
              AtypToU8(r.atyp) == buf[3] && AtypOf(r.bnd) == r.atyp
  {
    if |buf| >= 4 {
      RepCodec(buf[1], Succeeded);
    }
    if ConnReplyTryFrom(buf).Ok? {
      DecodedAddrPortShape(buf, ConnReplyTryFrom(buf).value.atyp);
    }
  }

  /** A reply whose tag matches its address and whose domain name fits the
      length byte decodes back to itself from its own bytes. */
  lemma ConnReplyRoundTrip(r: ConnReply, extra: seq<Byte>)
    requires r.atyp == AtypOf(r.bnd) && Encodable(r.bnd)
    ensures ConnReplyTryFrom(ConnReplyBytes(r) + extra) == Ok(r)
  {
    var header := [r.ver, RepToU8(r.rep), r.rsv, AtypToU8(r.atyp)];
    assert ConnReplyBytes(r) + extra == header + AddrPortBytes(r.bnd) + extra;
    RepCodec(RepToU8(r.rep), r.rep);
    DecodeEncodedAddrPort(header, r.bnd, extra);
  }

  /** Re-encoding a decoded reply reproduces the bytes it came from,
      unless its domain name was not valid UTF-8. */
  lemma ConnReplyReencode(buf: seq<Byte>)
    requires ConnReplyTryFrom(buf).Ok? && NameBytesValid(buf, ConnReplyTryFrom(buf).value.atyp)
    ensures var bytes := ConnReplyBytes(ConnReplyTryFrom(buf).value);
            |bytes| <= |buf| && buf[..|bytes|] == bytes
  {
    var r := ConnReplyTryFrom(buf).value;
    ConnReplyTryFromSpec(buf);
    assert r.bnd == DecodeAddrPort(buf, r.atyp).value;
    ReencodeDecodedAddrPort(buf, r.atyp);
    var n := |AddrPortBytes(r.bnd)|;
    assert buf[..4] == [r.ver, RepToU8(r.rep), r.rsv, AtypToU8(r.atyp)];
    assert buf[..4 + n] == buf[..4] + buf[4..4 + n];
  }

  /** A success reply for 0.0.0.0:0, the form a server sends when the
      bound address is of no interest. */
  const UnspecifiedSuccess: ConnReply := ConnReply(5, Succeeded, 0, ATYP.V4, AddrPort.V4([0, 0, 0, 0], 0))

  /** Its ten bytes, and they decode back to it. */
  lemma SucceededUnspecifiedExample()
    ensures ConnReplyBytes(UnspecifiedSuccess) == [5, 0, 0, 1, 0, 0, 0, 0, 0, 0]
    ensures ConnReplyTryFrom([5, 0, 0, 1, 0, 0, 0, 0, 0, 0]) == Ok(UnspecifiedSuccess)
  {
    SucceededUnspecifiedBytes();
    ConnReplyRoundTrip(UnspecifiedSuccess, []);
    assert ConnReplyBytes(UnspecifiedSuccess) + [] == ConnReplyBytes(UnspecifiedSuccess);
  }

  lemma SucceededUnspecifiedBytes()
    ensures ConnReplyBytes(UnspecifiedSuccess) == [5, 0, 0, 1, 0, 0, 0, 0, 0, 0]
  {
    assert U16ToBe(0) == [0, 0];
  }

  /** The reply `[5, 0, 0, 3]` passes the length, reply-code and
      address-type checks and then needs `buf[4]`, which it does not have:
      the source panics there; the corrected decoder reports an invalid
      domain. */
  lemma ReplyDomainLengthUnchecked()
    ensures var buf: seq<Byte> := [5, 0, 0, 3];
            && |buf| >= 4
            && RepFromU8(buf[1]) == Some(Succeeded)
            && AtypFromU8(buf[3]) == Some(DomainName)
            && !AddrIndexInBounds(buf, DomainName)
            && ConnReplyTryFrom(buf) == Err(InvalidDomain)
  {
  }
}
