/** The client's connection request (section 4 of RFC 1928):
    VER CMD RSV ATYP DST.ADDR DST.PORT. */
module ConnRequestCodec {
  import opened Bytes
  import opened Errors
  import opened Utf8
  import opened Parse
  import opened AddressType
  import opened ConnAddr

  datatype CMD = Connect | Bind | UdpAssociate

  function CmdToU8(c: CMD): Byte
  {
    match c
    case Connect => 0x01
    case Bind => 0x02
    case UdpAssociate => 0x03
  }

  /** The match on byte 1 of a request. */
  function CmdFromU8(b: Byte): Option<CMD>
  {
    if b == 0x01 then Some(Connect)
    else if b == 0x02 then Some(Bind)
    else if b == 0x03 then Some(UdpAssociate)
    else None
  }

  /** Exactly 01, 02 and 03 are commands, and the two maps are inverse. */
  lemma CmdCodec(b: Byte, c: CMD)
    ensures CmdFromU8(b).Some? <==> b in {0x01, 0x02, 0x03}
    ensures CmdFromU8(b).Some? ==> CmdToU8(CmdFromU8(b).value) == b
    ensures CmdFromU8(CmdToU8(c)) == Some(c)
  {
  }

  /** `ConnRequest::new` is this constructor. VER and RSV are kept as given. */
  datatype ConnRequest = ConnRequest(ver: Byte, cmd: CMD, rsv: Byte, atyp: ATYP, dst: AddrPort)

  /** The wire form of a request. */
  function ConnRequestBytes(r: ConnRequest): seq<Byte>
  {
    [r.ver, CmdToU8(r.cmd), r.rsv, AtypToU8(r.atyp)] + AddrPortBytes(r.dst)
  }

  /** `ConnRequest::to_bytes`: the four header bytes, then the address
      field appended in place. */
  method ConnRequestToBytes(r: ConnRequest) returns (buf: seq<Byte>)
    ensures buf == ConnRequestBytes(r)
    ensures r.dst.V4? ==> |buf| == 4 + 6
    ensures r.dst.V6? ==> |buf| == 4 + 18
    ensures r.dst.Domain? ==> |buf| == 4 + 1 + |r.dst.name| + 2 && buf[4] == |r.dst.name| % 0x100
    ensures buf[|buf| - 2..] == U16ToBe(r.dst.port)
  {
    buf := [r.ver, CmdToU8(r.cmd), r.rsv, AtypToU8(r.atyp)];
    buf := ExtendWithAddrPort(buf, r.dst);
  }

  /** `ConnRequest::try_from`, with the length byte of a domain address read
      only when it is there (see DecodeAddrPortCorrected). */
  function ConnRequestTryFrom(buf: seq<Byte>): Result<ConnRequest>
  {
    if |buf| < 4 then Err(ConnRequestTooShort)
    else
      match CmdFromU8(buf[1])
      case None => Err(UnsupportedCommand(buf[1]))
      case Some(cmd) =>
        match AtypFromU8(buf[3])
        case None => Err(InvalidAddressType(buf[3]))
        case Some(atyp) =>
          match DecodeAddrPort(buf, atyp)
          case Err(e) => Err(e)
          case Ok(dst) => Ok(ConnRequest(buf[0], cmd, buf[2], atyp, dst))
  }

  /** The checks in the order they are made: length, then command, then
      address type, then the address itself. VER and RSV are copied
      without any check. */
  lemma ConnRequestTryFromSpec(buf: seq<Byte>)
    ensures |buf| < 4 ==> ConnRequestTryFrom(buf) == Err(ConnRequestTooShort)
    ensures |buf| >= 4 && buf[1] !in {0x01, 0x02, 0x03} ==>
              ConnRequestTryFrom(buf) == Err(UnsupportedCommand(buf[1]))
    ensures |buf| >= 4 && buf[1] in {0x01, 0x02, 0x03} && buf[3] !in {0x01, 0x03, 0x04} ==>
              ConnRequestTryFrom(buf) == Err(InvalidAddressType(buf[3]))
    ensures |buf| >= 4 && buf[1] in {0x01, 0x02, 0x03} && buf[3] in {0x01, 0x03, 0x04} ==>
              var atyp := AtypFromU8(buf[3]).value;
              ConnRequestTryFrom(buf) ==
                match DecodeAddrPort(buf, atyp)
                case Err(e) => Err(e)
                case Ok(dst) => Ok(ConnRequest(buf[0], CmdFromU8(buf[1]).value, buf[2], atyp, dst))
    ensures ConnRequestTryFrom(buf).Ok? ==>
              var r := ConnRequestTryFrom(buf).value;
              r.ver == buf[0] && CmdToU8(r.cmd) == buf[1] && r.rsv == buf[2] &&
              AtypToU8(r.atyp) == buf[3] && AtypOf(r.dst) == r.atyp
  {
    if ConnRequestTryFrom(buf).Ok? {
      DecodedAddrPortShape(buf, ConnRequestTryFrom(buf).value.atyp);
    }
  }

  /** A request whose tag matches its address and whose domain name fits the
      length byte decodes back to itself from its own bytes. */
  lemma ConnRequestRoundTrip(r: ConnRequest, extra: seq<Byte>)
    requires r.atyp == AtypOf(r.dst) && Encodable(r.dst)
    ensures ConnRequestTryFrom(ConnRequestBytes(r) + extra) == Ok(r)
  {
    var header := [r.ver, CmdToU8(r.cmd), r.rsv, AtypToU8(r.atyp)];
    var buf := header + AddrPortBytes(r.dst) + extra;
    assert ConnRequestBytes(r) + extra == buf;
    assert buf[..4] == header;
    CmdCodec(buf[1], r.cmd);
    AtypCodec(buf[3], r.atyp);
    DecodeEncodedAddrPort(header, r.dst, extra);
    assert ConnRequestTryFrom(buf) == Ok(ConnRequest(buf[0], r.cmd, buf[2], r.atyp, r.dst));
  }

  /** Re-encoding a decoded request reproduces the bytes it came from,
      unless its domain name was not valid UTF-8. */
  lemma ConnRequestReencode(buf: seq<Byte>)
    requires ConnRequestTryFrom(buf).Ok? && NameBytesValid(buf, ConnRequestTryFrom(buf).value.atyp)
    ensures var bytes := ConnRequestBytes(ConnRequestTryFrom(buf).value);
            |bytes| <= |buf| && buf[..|bytes|] == bytes
  {
    var r := ConnRequestTryFrom(buf).value;
    ConnRequestTryFromSpec(buf);
    assert r.dst == DecodeAddrPort(buf, r.atyp).value;
    ReencodeDecodedAddrPort(buf, r.atyp);
    var n := |AddrPortBytes(r.dst)|;
    assert buf[..4] == [r.ver, CmdToU8(r.cmd), r.rsv, AtypToU8(r.atyp)];
    assert buf[..4 + n] == buf[..4] + buf[4..4 + n];
  }

  /** The bytes of "example.com". */
  const ExampleName: seq<Byte> := [0x65, 0x78, 0x61, 0x6D, 0x70, 0x6C, 0x65, 0x2E, 0x63, 0x6F, 0x6D]

  /** The request `[5,1,0,3,11,"example.com",0,80]`. */
  const ExampleRequestBytes: seq<Byte> := [0x05, 0x01, 0x00, 0x03, 0x0B] + ExampleName + [0x00, 0x50]

  /** The domain example: the request bytes above are a CONNECT to
      example.com port 80, and encoding that request gives the same bytes. */
  lemma ConnRequestDomainExample()
    ensures Valid(ExampleName)
    ensures ConnRequestTryFrom(ExampleRequestBytes) ==
              Ok(ConnRequest(5, Connect, 0, DomainName, Domain(ExampleName, 80)))
    ensures ConnRequestBytes(ConnRequestTryFrom(ExampleRequestBytes).value) == ExampleRequestBytes
  {
    AsciiIsValid(ExampleName);
    ExampleRequestEncoding();
    ConnRequestRoundTrip(ConnRequest(5, Connect, 0, DomainName, Domain(ExampleName, 80)), []);
    assert ExampleRequestBytes + [] == ExampleRequestBytes;
  }

  lemma ExampleRequestEncoding()
    requires Valid(ExampleName)
    ensures ConnRequestBytes(ConnRequest(5, Connect, 0, DomainName, Domain(ExampleName, 80))) == ExampleRequestBytes
  {
    assert U16ToBe(80) == [0x00, 0x50];
  }

  /** The IPv4 example: CONNECT to 127.0.0.1:8080. */
  lemma ConnRequestIpv4Example()
    ensures ConnRequestTryFrom([5, 1, 0, 1, 127, 0, 0, 1, 0x1F, 0x90]) ==
              Ok(ConnRequest(5, Connect, 0, ATYP.V4, AddrPort.V4([127, 0, 0, 1], 8080)))
  {
    var buf: seq<Byte> := [5, 1, 0, 1, 127, 0, 0, 1, 0x1F, 0x90];
    assert buf[4..] == [127, 0, 0, 1, 0x1F, 0x90];
    ParseIpPortExample();
  }

  /** `name.len() as u8`: a 256-byte name is announced as length 0, so the
      bytes decode to an empty name and a port taken from the name. */
  lemma DomainLengthTruncated(port: U16)
    ensures var name := seq(256, _ => 0x61);
            Valid(name) &&
            var r := ConnRequest(5, Connect, 0, DomainName, Domain(name, port));
            ConnRequestBytes(r)[4] == 0 &&
            ConnRequestTryFrom(ConnRequestBytes(r)) == Ok(ConnRequest(5, Connect, 0, DomainName, Domain([], 0x6161)))
  {
    var name: seq<Byte> := seq(256, _ => 0x61);
    AsciiIsValid(name);
    var r := ConnRequest(5, Connect, 0, DomainName, Domain(name, port));
    var bytes := ConnRequestBytes(r);
    assert bytes[4] == 0;
    assert bytes[5] == 0x61 && bytes[6] == 0x61;
    assert bytes[5..5] == [];
  }

  /** The request `[5, 1, 0, 3]` passes the length, command and address-type
      checks and then needs `buf[4]`, which it does not have: the source
      panics there; the corrected decoder reports an invalid domain. */
  lemma RequestDomainLengthUnchecked()
    ensures var buf: seq<Byte> := [5, 1, 0, 3];
            && |buf| >= 4
            && CmdFromU8(buf[1]) == Some(Connect)
            && AtypFromU8(buf[3]) == Some(DomainName)
            && !AddrIndexInBounds(buf, DomainName)
            && ConnRequestTryFrom(buf) == Err(InvalidDomain)
  {
  }
}
