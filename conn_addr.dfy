/** The address field shared by connection requests and replies (sections 4,
    5 and 6 of RFC 1928): ATYP-dependent DST/BND.ADDR followed by the port.
    Requests and replies encode and decode it with the same code. */
module ConnAddr {
  import opened Bytes
  import opened Errors
  import opened Utf8
  import opened Parse
  import opened AddressType

  /** The tag that belongs to an address. */
  function AtypOf(a: AddrPort): ATYP
  {
    match a
    case V4(_, _) => ATYP.V4
    case V6(_, _) => ATYP.V6
    case Domain(_, _) => DomainName
  }

  /** A domain name fits its one-byte length prefix. */
  predicate Encodable(a: AddrPort)
  {
    a.Domain? ==> |a.name| <= 0xFF
  }

  /** The address part of `to_bytes`. The domain length byte is
      `name.len() as u8`, which keeps only the low eight bits. */
  function AddrPortBytes(a: AddrPort): (r: seq<Byte>)
    ensures a.V4? ==> |r| == 6
    ensures a.V6? ==> |r| == 18
    ensures a.Domain? ==> |r| == 1 + |a.name| + 2 && r[0] == |a.name| % 0x100
    ensures r[|r| - 2..] == U16ToBe(a.port)
  {
    match a
    case V4(addr, port) => addr + U16ToBe(port)
    case V6(addr, port) => addr + U16ToBe(port)
    case Domain(name, port) => [|name| % 0x100] + name + U16ToBe(port)
  }

  /** The `match` of `to_bytes`, extending the buffer in place. */
  method ExtendWithAddrPort(buf: seq<Byte>, a: AddrPort) returns (out: seq<Byte>)
    ensures out == buf + AddrPortBytes(a)
  {
    out := buf;
    match a {
      case V4(addr, port) =>
        out := out + addr;
        out := out + U16ToBe(port);
        assert out == buf + (addr + U16ToBe(port));
      case V6(addr, port) =>
        out := out + addr;
        out := out + U16ToBe(port);
        assert out == buf + (addr + U16ToBe(port));
      case Domain(name, port) =>
        out := out + [|name| % 0x100];
        out := out + name;
        out := out + U16ToBe(port);
        assert out == buf + ([|name| % 0x100] + name + U16ToBe(port));
    }
  }

  /** The indexing `try_from` does on a buffer of at least four bytes: the
      length byte `buf[4]` of a domain is read before any length check. */
  predicate AddrIndexInBounds(buf: seq<Byte>, atyp: ATYP)
  {
    4 <= |buf| && (atyp == DomainName ==> 5 <= |buf|)
  }

  /** The address part of `try_from` as written: it can only be evaluated
      where its indexing is in bounds (elsewhere the source panics). */
  function DecodeAddrPortAsWritten(buf: seq<Byte>, atyp: ATYP): Result<AddrPort>
    requires AddrIndexInBounds(buf, atyp)
  {
    match atyp
    case V4() =>
      (match ParseIpPort(buf[4..], 0x01)
       case None => Err(ConnRequestTooShort)
       case Some((a, _)) => if a.V4? then Ok(a) else Err(InvalidAddressType(0x01)))
    case V6() =>
      (match ParseIpPort(buf[4..], 0x04)
       case None => Err(ConnRequestTooShort)
       case Some((a, _)) => if a.V6? then Ok(a) else Err(InvalidAddressType(0x04)))
    case DomainName() =>
      var len := buf[4] as int;
      if |buf| < 5 + len + 2 then Err(InvalidDomain)
      else
        var domain := Lossy(buf[5..5 + len]);
        var port := U16FromBe(buf[5 + len], buf[5 + len + 1]);
        Ok(Domain(domain, port))
  }

  /** The address part of `try_from` with the missing bound check added: a
      domain address with no length byte is an invalid domain. */
  function DecodeAddrPort(buf: seq<Byte>, atyp: ATYP): Result<AddrPort>
    requires 4 <= |buf|
  {
    if atyp == DomainName && |buf| < 5 then Err(InvalidDomain)
    else DecodeAddrPortAsWritten(buf, atyp)
  }

  /** The corrected decoder is defined on every buffer the header checks let
      through, and it agrees with the code as written wherever that code
      does not panic. */
  lemma DecodeAddrPortCorrected(buf: seq<Byte>, atyp: ATYP)
    requires 4 <= |buf|
    ensures AddrIndexInBounds(buf, atyp) ==> DecodeAddrPort(buf, atyp) == DecodeAddrPortAsWritten(buf, atyp)
    ensures !AddrIndexInBounds(buf, atyp) <==> atyp == DomainName && |buf| == 4
    ensures !AddrIndexInBounds(buf, atyp) ==> DecodeAddrPort(buf, atyp) == Err(InvalidDomain)
  {
  }

  /** The errors of the address part. A short IPv4 or IPv6 address is
      reported as a short request; a short domain as an invalid domain. */
  lemma DecodeAddrPortErrors(buf: seq<Byte>, atyp: ATYP)
    requires 4 <= |buf|
    ensures atyp == ATYP.V4 ==> (DecodeAddrPort(buf, atyp).Err? <==> |buf| < 10)
    ensures atyp == ATYP.V6 ==> (DecodeAddrPort(buf, atyp).Err? <==> |buf| < 22)
    ensures atyp != DomainName && DecodeAddrPort(buf, atyp).Err? ==> DecodeAddrPort(buf, atyp) == Err(ConnRequestTooShort)
    ensures atyp == DomainName ==>
              (DecodeAddrPort(buf, atyp).Err? <==> |buf| < 5 || |buf| < 7 + buf[4] as int) &&
              (DecodeAddrPort(buf, atyp).Err? ==> DecodeAddrPort(buf, atyp) == Err(InvalidDomain))
  {
    if atyp == ATYP.V4 {
      ParseIpPortV4(buf[4..]);
    } else if atyp == ATYP.V6 {
      ParseIpPortV6(buf[4..]);
    }
  }

  /** A decoded address always carries the tag it was decoded under, and
      fills the buffer up to its encoded length. */
  lemma DecodedAddrPortShape(buf: seq<Byte>, atyp: ATYP)
    requires 4 <= |buf| && DecodeAddrPort(buf, atyp).Ok?
    ensures var a := DecodeAddrPort(buf, atyp).value;
            && AtypOf(a) == atyp
            && (atyp != DomainName ==> buf[4..4 + |AddrPortBytes(a)|] == AddrPortBytes(a))
            && (atyp == DomainName ==> a.name == Lossy(buf[5..5 + buf[4] as int]) &&
                                        a.port == U16FromBe(buf[5 + buf[4] as int], buf[6 + buf[4] as int]))
  {
    var a := DecodeAddrPort(buf, atyp).value;
    if atyp == ATYP.V4 {
      ParseIpPortV4(buf[4..]);
      U16BeRoundTrip(a.port, buf[8], buf[9]);
      assert buf[4..10] == buf[4..8] + buf[8..10];
    } else if atyp == ATYP.V6 {
      ParseIpPortV6(buf[4..]);
      U16BeRoundTrip(a.port, buf[20], buf[21]);
      assert buf[4..22] == buf[4..20] + buf[20..22];
    }
  }

  /** Decoding what `to_bytes` produced for an encodable address, behind any
      four header bytes and before any trailing bytes, gives the address back. */
  lemma DecodeEncodedAddrPort(header: seq<Byte>, a: AddrPort, extra: seq<Byte>)
    requires |header| == 4 && Encodable(a)
    ensures DecodeAddrPort(header + AddrPortBytes(a) + extra, AtypOf(a)) == Ok(a)
  {
    var buf := header + AddrPortBytes(a) + extra;
    assert buf[4..] == AddrPortBytes(a) + extra;
    match a {
      case V4(addr, port) => DecodeEncodedIp(header, a, extra);
      case V6(addr, port) => DecodeEncodedIp(header, a, extra);
      case Domain(name, port) => DecodeEncodedDomain(header, name, port, extra);
    }
  }

  lemma DecodeEncodedIp(header: seq<Byte>, a: AddrPort, extra: seq<Byte>)
    requires |header| == 4 && !a.Domain?
    ensures DecodeAddrPort(header + AddrPortBytes(a) + extra, AtypOf(a)) == Ok(a)
  {
    var rest := AddrPortBytes(a) + extra;
    assert (header + AddrPortBytes(a) + extra)[4..] == rest;
    var be := U16ToBe(a.port);
    U16BeRoundTrip(a.port, 0, 0);
    if a.V4? {
      assert rest == a.addr4 + be + extra;
      ParseIpPortV4(rest);
      assert rest[..4] == a.addr4;
      assert rest[4] == be[0] && rest[5] == be[1];
    } else {
      assert rest == a.addr6 + be + extra;
      ParseIpPortV6(rest);
      assert rest[..16] == a.addr6;
      assert rest[16] == be[0] && rest[17] == be[1];
    }
  }

  lemma DecodeEncodedDomain(header: seq<Byte>, name: Utf8String, port: U16, extra: seq<Byte>)
    requires |header| == 4 && |name| <= 0xFF
    ensures DecodeAddrPort(header + AddrPortBytes(Domain(name, port)) + extra, DomainName) == Ok(Domain(name, port))
  {
    var be := U16ToBe(port);
    var buf := header + [|name|] + name + be + extra;
    assert buf == header + AddrPortBytes(Domain(name, port)) + extra;
    var len := |name|;
    assert buf[4] == len;
    assert buf[5..5 + len] == name;
    assert buf[5 + len] == be[0] && buf[6 + len] == be[1];
    U16BeRoundTrip(port, 0, 0);
    LossyOfValid(name);
  }

  /** The bytes a decoded address came from, when its name was valid UTF-8,
      are exactly what encoding it gives back. */
  predicate NameBytesValid(buf: seq<Byte>, atyp: ATYP)
  {
    atyp == DomainName && 5 <= |buf| && 5 + buf[4] as int <= |buf| ==> Valid(buf[5..5 + buf[4] as int])
  }

  /** Encoding a decoded address reproduces the bytes it was decoded from,
      unless the domain name had to be repaired by the lossy UTF-8 decoding. */
  lemma ReencodeDecodedAddrPort(buf: seq<Byte>, atyp: ATYP)
    requires 4 <= |buf| && DecodeAddrPort(buf, atyp).Ok? && NameBytesValid(buf, atyp)
    ensures var a := DecodeAddrPort(buf, atyp).value;
            4 + |AddrPortBytes(a)| <= |buf| && buf[4..4 + |AddrPortBytes(a)|] == AddrPortBytes(a)
  {
    if atyp == DomainName {
      ReencodeDecodedDomain(buf);
    } else {
      DecodedAddrPortShape(buf, atyp);
    }
  }

  lemma ReencodeDecodedDomain(buf: seq<Byte>)
    requires 5 <= |buf| && 7 + buf[4] as int <= |buf| && Valid(buf[5..5 + buf[4] as int])
    ensures var a := DecodeAddrPort(buf, DomainName).value;
            DecodeAddrPort(buf, DomainName).Ok? &&
            4 + |AddrPortBytes(a)| <= |buf| && buf[4..4 + |AddrPortBytes(a)|] == AddrPortBytes(a)
  {
    var len := buf[4] as int;
    DecodeValidDomain(buf);
    DomainBytesAt(buf, buf[5..5 + len], U16FromBe(buf[5 + len], buf[6 + len]));
  }

  lemma DecodeValidDomain(buf: seq<Byte>)
    requires 5 <= |buf| && 7 + buf[4] as int <= |buf| && Valid(buf[5..5 + buf[4] as int])
    ensures DecodeAddrPort(buf, DomainName) ==
              Ok(Domain(buf[5..5 + buf[4] as int], U16FromBe(buf[5 + buf[4] as int], buf[6 + buf[4] as int])))
  {
    LossyOfValid(buf[5..5 + buf[4] as int]);
  }

  lemma DomainBytesAt(buf: seq<Byte>, name: Utf8String, port: U16)
    requires 5 <= |buf| && 7 + buf[4] as int <= |buf|
    requires name == buf[5..5 + buf[4] as int] && port == U16FromBe(buf[5 + buf[4] as int], buf[6 + buf[4] as int])
    ensures buf[4..7 + buf[4] as int] == AddrPortBytes(Domain(name, port))
  {
    var len := buf[4] as int;
    U16BeRoundTrip(port, buf[5 + len], buf[6 + len]);
    assert buf[4..7 + len] == [buf[4]] + buf[5..5 + len] + buf[5 + len..7 + len];
  }
}
