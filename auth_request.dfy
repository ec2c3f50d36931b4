/** The username/password request of section 2 of RFC 1929:
    VER ULEN UNAME PLEN PASSWD. */
module AuthRequestCodec {
  import opened Bytes
  import opened Errors
  import opened Utf8

  datatype AuthRequest = AuthRequest(ver: Byte, uname: Utf8String, passwd: Utf8String)

  function NewAuthRequest(uname: Utf8String, passwd: Utf8String): AuthRequest
  {
    AuthRequest(0x01, uname, passwd)
  }

  /** `AuthRequest::try_from`. Both fields are checked strictly for UTF-8;
      no minimum length is enforced for either of them. */
  function AuthRequestTryFrom(bytes: seq<Byte>): Result<AuthRequest>
  {
    if |bytes| < 2 then Err(AuthMessageTooShort)
    else if bytes[0] != 0x01 then Err(UnsupportedAuthVersion(bytes[0]))
    else
      var ulen := bytes[1] as int;
      if |bytes| < 2 + ulen + 1 then Err(AuthFailed("truncated before username"))
      else
        match FromUtf8(bytes[2..2 + ulen])
        case None => Err(AuthFailed("invalid UTF-8 in username"))
        case Some(uname) =>
          var plenIndex := 2 + ulen;
          var plen := bytes[plenIndex] as int;
          if |bytes| < plenIndex + 1 + plen then Err(AuthFailed("truncated before password"))
          else
            match FromUtf8(bytes[plenIndex + 1..plenIndex + 1 + plen])
            case None => Err(AuthFailed("invalid UTF-8 in password"))
            case Some(passwd) => Ok(AuthRequest(bytes[0], uname, passwd))
  }

  /** Every outcome of the decoder, in the order the checks are made. */
  lemma AuthRequestTryFromSpec(bytes: seq<Byte>)
    ensures |bytes| < 2 ==> AuthRequestTryFrom(bytes) == Err(AuthMessageTooShort)
    ensures |bytes| >= 2 && bytes[0] != 0x01 ==>
              AuthRequestTryFrom(bytes) == Err(UnsupportedAuthVersion(bytes[0]))
    ensures |bytes| >= 2 && bytes[0] == 0x01 && |bytes| < 3 + bytes[1] as int ==>
              AuthRequestTryFrom(bytes) == Err(AuthFailed("truncated before username"))
    ensures |bytes| >= 2 && bytes[0] == 0x01 && |bytes| >= 3 + bytes[1] as int ==>
              var ulen := bytes[1] as int;
              var plen := bytes[2 + ulen] as int;
              && (!Valid(bytes[2..2 + ulen]) ==>
                    AuthRequestTryFrom(bytes) == Err(AuthFailed("invalid UTF-8 in username")))
              && (Valid(bytes[2..2 + ulen]) && |bytes| < 3 + ulen + plen ==>
                    AuthRequestTryFrom(bytes) == Err(AuthFailed("truncated before password")))
              && (Valid(bytes[2..2 + ulen]) && |bytes| >= 3 + ulen + plen ==>
                    if Valid(bytes[3 + ulen..3 + ulen + plen])
                    then AuthRequestTryFrom(bytes) ==
                           Ok(AuthRequest(0x01, bytes[2..2 + ulen], bytes[3 + ulen..3 + ulen + plen]))
                    else AuthRequestTryFrom(bytes) == Err(AuthFailed("invalid UTF-8 in password")))
  {
  }

  /** The client's encoding of a request: VER 1 and the two
      length-prefixed strings. */
  function AuthRequestBytes(uname: seq<Byte>, passwd: seq<Byte>): seq<Byte>
    requires |uname| <= 0xFF && |passwd| <= 0xFF
  {
    [0x01, |uname|] + uname + [|passwd|] + passwd
  }

  /** A correctly encoded request decodes to what `AuthRequest::new` builds;
      trailing bytes are ignored. */
  lemma AuthRequestRoundTrip(uname: Utf8String, passwd: Utf8String, extra: seq<Byte>)
    requires |uname| <= 0xFF && |passwd| <= 0xFF
    ensures AuthRequestTryFrom(AuthRequestBytes(uname, passwd) + extra) == Ok(NewAuthRequest(uname, passwd))
  {
    var bytes := AuthRequestBytes(uname, passwd) + extra;
    var u := |uname|;
    var p := |passwd|;
    assert bytes[1] == u;
    assert bytes[2..2 + u] == uname;
    assert bytes[2 + u] == p;
    assert bytes[3 + u..3 + u + p] == passwd;
  }

  /** The username's encoding is checked before the password length: a
      bad username is reported even when the password is missing. */
  lemma UsernameCheckedFirst()
    ensures AuthRequestTryFrom([0x01, 0x01, 0xFF, 0x05]) == Err(AuthFailed("invalid UTF-8 in username"))
  {
    assert !Valid([0x01, 0x01, 0xFF, 0x05][2..3]);
  }

  /** Empty username and password are accepted, although RFC 1929 asks for
      1 to 255 bytes each. */
  lemma EmptyCredentialsAccepted()
    ensures AuthRequestTryFrom([0x01, 0x00, 0x00]) == Ok(AuthRequest(0x01, [], []))
  {
    assert [0x01, 0x00, 0x00][2..2] == [];
    assert [0x01, 0x00, 0x00][3..3] == [];
  }
}
