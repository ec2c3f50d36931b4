/** Destination and bound addresses (section 5 of RFC 1928) and the decoder
    for the two fixed-length kinds. */
module Parse {
  import opened Bytes
  import opened Errors
  import opened Utf8

  /** `Ipv4Addr` as its octets. */
  type Ipv4 = s: seq<Byte> | |s| == 4 witness [0, 0, 0, 0]

  /** `Ipv6Addr` as its octets, in network order. */
  type Ipv6 = s: seq<Byte> | |s| == 16 witness [0, 0, 0, 0, 0, 0, 0, 0, 0, 0, 0, 0, 0, 0, 0, 0]

  /** An address with its port. */
  datatype AddrPort =
    | V4(addr4: Ipv4, port: U16)
    | V6(addr6: Ipv6, port: U16)
    | Domain(name: Utf8String, port: U16)

  /** `Ipv6Addr::new`: eight 16-bit segments, each stored high byte first. */
  function Ipv6New(segments: seq<U16>): (ip: Ipv6)
    requires |segments| == 8
  {
    seq(16, i requires 0 <= i < 16 =>
      if i % 2 == 0 then segments[i / 2] / 0x100 else segments[i / 2] % 0x100)
  }

  /** `Ipv6Addr::segments`. */
  function Ipv6Segments(ip: Ipv6): seq<U16>
  {
    seq(8, i requires 0 <= i < 8 => U16FromBe(ip[2 * i], ip[2 * i + 1]))
  }

  /** The eight segment arguments `parse_ip_port` passes to `Ipv6Addr::new`. */
  function SegmentsOf(buf: seq<Byte>): seq<U16>
    requires |buf| >= 16
  {
    [ (buf[0] as U16) * 0x100 + (buf[1] as U16),
      (buf[2] as U16) * 0x100 + (buf[3] as U16),
      (buf[4] as U16) * 0x100 + (buf[5] as U16),
      (buf[6] as U16) * 0x100 + (buf[7] as U16),
      (buf[8] as U16) * 0x100 + (buf[9] as U16),
      (buf[10] as U16) * 0x100 + (buf[11] as U16),
      (buf[12] as U16) * 0x100 + (buf[13] as U16),
      (buf[14] as U16) * 0x100 + (buf[15] as U16)]
  }

  /** `Parse::parse_ip_port`: IPv4 (tag 01) or IPv6 (tag 04) address and
      port from the start of `buf`, with the number of bytes used. */
  function ParseIpPort(buf: seq<Byte>, atyp: Byte): Option<(AddrPort, nat)>
  {
    if atyp == 0x01 then
      if |buf| < 6 then None
      else
        var ip := [buf[0], buf[1], buf[2], buf[3]];
        var port := U16FromBe(buf[4], buf[5]);
        Some((V4(ip, port), 6))
    else if atyp == 0x04 then
      if |buf| < 18 then None
      else
        var ip := Ipv6New(SegmentsOf(buf));
        var port := U16FromBe(buf[16], buf[17]);
        Some((V6(ip, port), 18))
    else None
  }

  /** Splitting a 16-bit segment into its two bytes. */
  lemma SegmentBytes(hi: Byte, lo: Byte)
    ensures (hi * 0x100 + lo) / 0x100 == hi && (hi * 0x100 + lo) % 0x100 == lo
  {
  }

  /** Tag 01: none exactly when fewer than 6 bytes; otherwise the first four
      bytes are the address, the next two the big-endian port, 6 used. */
  lemma ParseIpPortV4(buf: seq<Byte>)
    ensures ParseIpPort(buf, 0x01).None? <==> |buf| < 6
    ensures |buf| >= 6 ==>
              ParseIpPort(buf, 0x01) == Some((V4(buf[..4], (buf[4] as U16) * 0x100 + (buf[5] as U16)), 6))
  {
    if |buf| >= 6 {
      assert [buf[0], buf[1], buf[2], buf[3]] == buf[..4];
    }
  }

  /** Tag 04: none exactly when fewer than 18 bytes; otherwise the octets are
      the first sixteen bytes in order, segment i is bytes 2i and 2i+1 big
      endian, the port is bytes 16 and 17, and 18 bytes are used. */
  lemma ParseIpPortV6(buf: seq<Byte>)
    ensures ParseIpPort(buf, 0x04).None? <==> |buf| < 18
    ensures |buf| >= 18 ==>
              var (a, used) := ParseIpPort(buf, 0x04).value;
              && a.V6?
              && a.addr6 == buf[..16]
              && (forall i :: 0 <= i < 8 ==> Ipv6Segments(a.addr6)[i] == buf[2 * i] as int * 0x100 + buf[2 * i + 1])
              && a.port == (buf[16] as U16) * 0x100 + (buf[17] as U16)
              && used == 18
  {
    if |buf| >= 18 {
      ParseIpPortV6Value(buf);
      Ipv6SegmentsOfPrefix(buf);
    }
  }

  lemma ParseIpPortV6Value(buf: seq<Byte>)
    requires |buf| >= 18
    ensures ParseIpPort(buf, 0x04) == Some((V6(buf[..16], U16FromBe(buf[16], buf[17])), 18))
  {
    SegmentsOfBytes(buf);
    Ipv6NewOfBytes(SegmentsOf(buf), buf);
  }

  lemma Ipv6SegmentsOfPrefix(buf: seq<Byte>)
    requires |buf| >= 16
    ensures forall i :: 0 <= i < 8 ==> Ipv6Segments(buf[..16])[i] == buf[2 * i] as int * 0x100 + buf[2 * i + 1]
  {
    var ip: Ipv6 := buf[..16];
    forall i | 0 <= i < 8
      ensures Ipv6Segments(ip)[i] == buf[2 * i] as int * 0x100 + buf[2 * i + 1]
    {
      assert ip[2 * i] == buf[2 * i] && ip[2 * i + 1] == buf[2 * i + 1];
    }
  }

  /** Segment j of SegmentsOf is bytes 2j and 2j+1, high byte first. */
  lemma SegmentsOfBytes(buf: seq<Byte>)
    requires |buf| >= 16
    ensures |SegmentsOf(buf)| == 8
    ensures forall j :: 0 <= j < 8 ==> SegmentsOf(buf)[j] == buf[2 * j] as int * 0x100 + buf[2 * j + 1]
  {
  }

  /** Building an address from the big-endian segments of sixteen bytes
      gives back those bytes. */
  lemma Ipv6NewOfBytes(segments: seq<U16>, buf: seq<Byte>)
    requires |segments| == 8 && |buf| >= 16
    requires forall j :: 0 <= j < 8 ==> segments[j] == buf[2 * j] as int * 0x100 + buf[2 * j + 1]
    ensures Ipv6New(segments) == buf[..16]
  {
    var ip := Ipv6New(segments);
    forall i | 0 <= i < 16
      ensures ip[i] == buf[i]
    {
      var j := i / 2;
      assert segments[j] == buf[2 * j] as int * 0x100 + buf[2 * j + 1];
      SegmentBytes(buf[2 * j], buf[2 * j + 1]);
      if i % 2 == 0 {
        assert i == 2 * j;
        assert ip[i] == segments[j] / 0x100;
      } else {
        assert i == 2 * j + 1;
        assert ip[i] == segments[j] % 0x100;
      }
    }
  }

  /** Every other tag, the domain tag 03 included, gives none. */
  lemma ParseIpPortOtherTags(buf: seq<Byte>, atyp: Byte)
    requires atyp != 0x01 && atyp != 0x04
    ensures ParseIpPort(buf, atyp).None?
  {
  }

  /** Bytes past the 6 or 18 that are used play no part in the result. */
  lemma ParseIpPortIgnoresTrailing(buf: seq<Byte>, atyp: Byte, extra: seq<Byte>)
    requires ParseIpPort(buf, atyp).Some?
    ensures ParseIpPort(buf + extra, atyp) == ParseIpPort(buf, atyp)
    ensures ParseIpPort(buf[..ParseIpPort(buf, atyp).value.1], atyp) == ParseIpPort(buf, atyp)
  {
    var n := ParseIpPort(buf, atyp).value.1;
    var prefix := buf[..n];
    assert forall i :: 0 <= i < n ==> (buf + extra)[i] == buf[i] && prefix[i] == buf[i];
  }

  /** The segments of an address built from segments are those segments. */
  lemma Ipv6SegmentsOfNew(segments: seq<U16>)
    requires |segments| == 8
    ensures Ipv6Segments(Ipv6New(segments)) == segments
  {
    var ip := Ipv6New(segments);
    forall i | 0 <= i < 8
      ensures Ipv6Segments(ip)[i] == segments[i]
    {
      assert ip[2 * i] == segments[i] / 0x100;
      assert ip[2 * i + 1] == segments[i] % 0x100;
    }
  }

  /** The documented example: `[127, 0, 0, 1, 0x1F, 0x90]` is 127.0.0.1:8080,
      six bytes used. */
  lemma ParseIpPortExample()
    ensures ParseIpPort([127, 0, 0, 1, 0x1F, 0x90], 0x01) == Some((V4([127, 0, 0, 1], 8080), 6))
  {
  }
}
