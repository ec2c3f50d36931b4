/** The method-negotiation messages of section 3 of RFC 1928: the client's
    version/methods message and the server's method selection. */
module Handshake {
  import opened Bytes
  import opened Errors
  import opened MethodCodec

  /** VER, then the proposed methods in the client's order. */
  datatype VersionMessage = VersionMessage(ver: Byte, methods: seq<Method>)

  function NewVersionMessage(methods: seq<Method>): VersionMessage
  {
    VersionMessage(0x05, methods)
  }

  /** The method list: every byte decoded on its own. */
  function DecodeMethods(bs: seq<Byte>): seq<Method>
  {
    seq(|bs|, i requires 0 <= i < |bs| => MethodFromU8(bs[i]).value)
  }

  /** What `VersionMessage::try_from` computes. */
  function ParseVersionMessage(bytes: seq<Byte>): Result<VersionMessage>
  {
    if |bytes| < 2 then Err(VersionMessageTooShort)
    else if bytes[0] != 0x05 then Err(UnsupportedVersion(bytes[0]))
    else if |bytes| < 2 + (bytes[1] as int) then Err(IncompleteVersionMessage)
    else Ok(VersionMessage(bytes[0], DecodeMethods(bytes[2..2 + (bytes[1] as int)])))
  }

  /** `VersionMessage::try_from`: the method list is filled one byte at a time. */
  method VersionMessageTryFrom(bytes: seq<Byte>) returns (r: Result<VersionMessage>)
    ensures r == ParseVersionMessage(bytes)
  {
    if |bytes| < 2 {
      return Err(VersionMessageTooShort);
    }
    var ver := bytes[0];
    if ver != 0x05 {
      return Err(UnsupportedVersion(ver));
    }
    var nmethods := bytes[1] as int;
    if |bytes| < 2 + nmethods {
      return Err(IncompleteVersionMessage);
    }
    var methods: seq<Method> := [];
    for i := 2 to 2 + nmethods
      invariant |methods| == i - 2
      invariant forall k :: 0 <= k < i - 2 ==> methods[k] == MethodFromU8(bytes[2 + k]).value
    {
      match MethodFromU8(bytes[i]) {
        case Ok(m) =>
          methods := methods + [m];
        case Err(_) =>
          // `?` on a decoder that never fails (MethodFromU8Total)
          assert false;
      }
    }
    assert methods == DecodeMethods(bytes[2..2 + nmethods]);
    return Ok(VersionMessage(ver, methods));
  }

  /** The error cases in the order they are checked, and the shape of a
      successful result. */
  lemma ParseVersionMessageSpec(bytes: seq<Byte>)
    ensures |bytes| < 2 ==> ParseVersionMessage(bytes) == Err(VersionMessageTooShort)
    ensures |bytes| >= 2 && bytes[0] != 0x05 ==>
              ParseVersionMessage(bytes) == Err(UnsupportedVersion(bytes[0]))
    ensures |bytes| >= 2 && bytes[0] == 0x05 && |bytes| < 2 + (bytes[1] as int) ==>
              ParseVersionMessage(bytes) == Err(IncompleteVersionMessage)
    ensures ParseVersionMessage(bytes).Ok? <==>
              |bytes| >= 2 && bytes[0] == 0x05 && |bytes| >= 2 + (bytes[1] as int)
    ensures ParseVersionMessage(bytes).Ok? ==>
              var msg := ParseVersionMessage(bytes).value;
              && msg.ver == 0x05
              && |msg.methods| == bytes[1]
              && forall i :: 0 <= i < bytes[1] ==>
                   WellFormed(msg.methods[i]) && MethodToU8(msg.methods[i]) == bytes[2 + i]
  {
    if ParseVersionMessage(bytes).Ok? {
      var msg := ParseVersionMessage(bytes).value;
      forall i | 0 <= i < bytes[1]
        ensures WellFormed(msg.methods[i]) && MethodToU8(msg.methods[i]) == bytes[2 + i]
      {
        MethodFromU8Total(bytes[2 + i]);
      }
    }
  }

  /** Bytes after the declared method list are ignored. */
  lemma ParseVersionMessageIgnoresTrailing(bytes: seq<Byte>, extra: seq<Byte>)
    requires ParseVersionMessage(bytes).Ok?
    ensures ParseVersionMessage(bytes + extra) == ParseVersionMessage(bytes)
  {
    assert (bytes + extra)[2..2 + (bytes[1] as int)] == bytes[2..2 + (bytes[1] as int)];
  }

  /** The client's encoding of a version message (section 3 of RFC 1928),
      used to state the round trip below. */
  ghost function VersionMessageBytes(methods: seq<Method>): seq<Byte>
    requires |methods| <= 0xFF
  {
    [0x05, |methods|] + seq(|methods|, i requires 0 <= i < |methods| => MethodToU8(methods[i]))
  }

  /** Parsing a correctly encoded method list gives back exactly the
      message `VersionMessage::new` builds, whatever follows it. */
  lemma ParseVersionMessageRoundTrip(methods: seq<Method>, extra: seq<Byte>)
    requires |methods| <= 0xFF
    requires forall i :: 0 <= i < |methods| ==> WellFormed(methods[i])
    ensures ParseVersionMessage(VersionMessageBytes(methods) + extra) == Ok(NewVersionMessage(methods))
  {
    var bytes := VersionMessageBytes(methods);
    ParseVersionMessageIgnoresTrailing(bytes, extra);
    var decoded := DecodeMethods(bytes[2..2 + |methods|]);
    forall i | 0 <= i < |methods|
      ensures decoded[i] == methods[i]
    {
      MethodRoundTrip(methods[i]);
    }
    assert decoded == methods;
  }

  /** `[5, 3, 0]` announces three methods but carries one. */
  lemma IncompleteVersionMessageExample()
    ensures ParseVersionMessage([5, 3, 0]) == Err(IncompleteVersionMessage)
    ensures ParseVersionMessage([5, 1, 0]) == Ok(VersionMessage(5, [Fixed(NoAuth)]))
  {
    assert DecodeMethods([5, 1, 0][2..3]) == [Fixed(NoAuth)];
  }

  /** The server's reply: VER and the selected method. */
  datatype MethodSelection = MethodSelection(ver: Byte, selected: Method)

  function NewMethodSelection(m: Method): MethodSelection
  {
    MethodSelection(0x05, m)
  }

  function MethodSelectionToBytes(sel: MethodSelection): seq<Byte>
  {
    [sel.ver, MethodToU8(sel.selected)]
  }

  /** `MethodSelection::try_from`: the same length and version checks, then
      the second byte as a method; further bytes are ignored. */
  function MethodSelectionTryFrom(bytes: seq<Byte>): Result<MethodSelection>
  {
    if |bytes| < 2 then Err(VersionMessageTooShort)
    else if bytes[0] != 0x05 then Err(UnsupportedVersion(bytes[0]))
    else
      match MethodFromU8(bytes[1])
      case Err(e) => Err(e)
      case Ok(m) => Ok(MethodSelection(bytes[0], m))
  }

  /** The error cases of the selection decoder and its result. */
  lemma MethodSelectionTryFromSpec(bytes: seq<Byte>)
    ensures |bytes| < 2 ==> MethodSelectionTryFrom(bytes) == Err(VersionMessageTooShort)
    ensures |bytes| >= 2 && bytes[0] != 0x05 ==>
              MethodSelectionTryFrom(bytes) == Err(UnsupportedVersion(bytes[0]))
    ensures MethodSelectionTryFrom(bytes).Ok? <==> |bytes| >= 2 && bytes[0] == 0x05
    ensures MethodSelectionTryFrom(bytes).Ok? ==>
              MethodSelectionTryFrom(bytes) == Ok(NewMethodSelection(MethodFromU8(bytes[1]).value)) &&
              MethodSelectionToBytes(MethodSelectionTryFrom(bytes).value) == bytes[..2]
  {
  }

  /** A selection built by `new` is version 5, serialises to
      `[5, method byte]` and decodes back to itself. */
  lemma MethodSelectionRoundTrip(m: Method)
    requires WellFormed(m)
    ensures NewMethodSelection(m).ver == 0x05
    ensures MethodSelectionToBytes(NewMethodSelection(m)) == [0x05, MethodToU8(m)]
    ensures MethodSelectionTryFrom(MethodSelectionToBytes(NewMethodSelection(m))) == Ok(NewMethodSelection(m))
  {
    MethodRoundTrip(m);
  }

  /** The documented example: selecting no authentication sends `[5, 0]`. */
  lemma NoAuthSelectionBytes()
    ensures MethodSelectionToBytes(NewMethodSelection(Fixed(NoAuth))) == [0x05, 0x00]
    ensures NewVersionMessage([Fixed(NoAuth)]).ver == 0x05
  {
  }
}
