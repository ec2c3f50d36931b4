/** The username/password reply of section 2 of RFC 1929: VER STATUS. */
module AuthReplyCodec {
  import opened Bytes
  import opened Errors

  /** 00 is success; a decoder reads every other value as failure. */
  datatype AuthStatus = Success | Failure

  function AuthStatusToU8(s: AuthStatus): Byte
  {
    match s
    case Success => 0x00
    case Failure => 0x01
  }

  datatype AuthReply = AuthReply(ver: Byte, status: AuthStatus)

  function NewAuthReply(status: AuthStatus): AuthReply
  {
    AuthReply(0x01, status)
  }

  function AuthReplyToBytes(reply: AuthReply): seq<Byte>
  {
    [reply.ver, AuthStatusToU8(reply.status)]
  }

  /** `AuthReply::try_from`: exactly two bytes. */
  function AuthReplyTryFrom(bytes: seq<Byte>): Result<AuthReply>
  {
    if |bytes| != 2 then Err(AuthMessageTooShort)
    else if bytes[0] != 0x01 then Err(UnsupportedAuthVersion(bytes[0]))
    else
      var status := if bytes[1] == 0x00 then Success else Failure;
      Ok(AuthReply(bytes[0], status))
  }

  /** Every outcome of the decoder. */
  lemma AuthReplyTryFromSpec(bytes: seq<Byte>)
    ensures |bytes| != 2 ==> AuthReplyTryFrom(bytes) == Err(AuthMessageTooShort)
    ensures |bytes| == 2 && bytes[0] != 0x01 ==> AuthReplyTryFrom(bytes) == Err(UnsupportedAuthVersion(bytes[0]))
    ensures AuthReplyTryFrom(bytes).Ok? <==> |bytes| == 2 && bytes[0] == 0x01
    ensures |bytes| == 2 && bytes[0] == 0x01 ==>
              AuthReplyTryFrom(bytes) == Ok(NewAuthReply(if bytes[1] == 0x00 then Success else Failure))
  {
  }

  /** A reply built by `new` is `[1, 0]` or `[1, 1]` and decodes back to itself. */
  lemma AuthReplyRoundTrip(s: AuthStatus)
    ensures NewAuthReply(s).ver == 0x01
    ensures AuthReplyToBytes(NewAuthReply(s)) == (if s == Success then [0x01, 0x00] else [0x01, 0x01])
    ensures AuthReplyTryFrom(AuthReplyToBytes(NewAuthReply(s))) == Ok(NewAuthReply(s))
  {
  }
}
