# simple-socks5: the negotiation core in Dafny

simple-socks5 is a small asynchronous SOCKS5 server library. This project models
what happens on one client connection until the proxying proper begins:

- the wire codecs of every negotiation message:
  - the version/methods message and the method selection (section 3 of RFC 1928);
  - the username/password request and reply (section 2 of RFC 1929);
  - the connection request and reply (sections 4 to 6 of RFC 1928);
- the address/port parser they share;
- the server's configuration (`allow_no_auth`, `allow_userpass`);
- `authenticate`, which chooses a method and runs the username/password
  sub-negotiation;
- the fixed header `send_conn_reply` writes.

Codecs are pure functions over byte sequences. Each one has lemmas that give
every error case in the order the code checks them, its round trip, and the
examples the library documents. Where the code works step by step, it is
modelled imperatively:

- `VersionMessageTryFrom` fills the method list in a loop.
- The `to_bytes` methods extend a buffer.
- `Socks5` is a class whose setters update its fields.
- The read/send helpers and `Authenticate` act on a `Stream` object. That
  object holds the chunks still to be read and a transcript of every read and
  write.

`Authenticate` is proved equal to the specification function
`AuthenticateSession`: same result, same transcript, same unread input. The
lemmas about `AuthenticateSession` establish:

- the selection policy;
- that the selection is the first thing written;
- what each selected method leads to;
- that authentication succeeds exactly when the client is permitted.

Modules (one file each):

| file | module | source |
|---|---|---|
| bytes.dfy | Bytes | `u16::from_be_bytes` / `to_be_bytes` |
| errors.dfy | Errors | the `SocksError` variants, `Result`, `Option` |
| utf8.dfy | Utf8 | `String::from_utf8` and `String::from_utf8_lossy` |
| method.dfy | MethodCodec | src/msg/method.rs |
| message.dfy | Handshake | src/msg/message.rs |
| auth_request.dfy | AuthRequestCodec | src/auth/request.rs |
| auth_reply.dfy | AuthReplyCodec | src/auth/reply.rs |
| atyp.dfy | AddressType | `ATYP` in src/lib.rs |
| parse.dfy | Parse | src/parse.rs |
| conn_addr.dfy | ConnAddr | the address field shared by src/conn/request.rs and src/conn/reply.rs |
| conn_request.dfy | ConnRequestCodec | src/conn/request.rs |
| conn_reply.dfy | ConnReplyCodec | src/conn/reply.rs |
| lib.dfy | Server | `Socks5` in src/lib.rs |

Where the code is more permissive than RFC 1928, RFC 1929 or the library's own
description, the model follows the code:

- Empty usernames and passwords are accepted; RFC 1929 asks for 1 to 255 bytes.
- The codec accepts a username and a password of 255 bytes each, but such a
  request is 513 bytes long. `read_auth_request` reads it into a 512-byte
  buffer, so the two cannot arrive together in one read, and `authenticate`
  reports the password truncated (`Server.OversizedCredentialsCut`).
- A domain of length 0 is accepted.
- A decoded domain is the lossy UTF-8 decoding of its bytes. Its length can
  therefore differ from the declared length byte.
- An unknown reply code in `ConnReply::try_from` is reported as
  `ConnRequestTooShort`. It is not a dedicated error.
- VER and RSV of connection requests and replies are copied without a check.
- The encoder writes a domain's length as `name.len() as u8`, keeping only
  the low eight bits (see `ConnRequestCodec.DomainLengthTruncated`).
- `authenticate` stops after the authentication step. The connection request
  is read by a separate call to `read_conn_request`, as in
  `Server.NoAuthConnectScenario`.

## Model

| member | source | states |
|---|---|---|
| Bytes.U16BeRoundTrip | src/parse.rs:78 | big-endian port bytes and the 16-bit value convert into each other both ways |
| Utf8.FromUtf8RejectsNonScalars | src/auth/request.rs:76-87 | strict decoding rejects, whatever follows, every string that starts with a stray continuation byte, an overlong lead C0/C1, a lead F5..FF, an overlong E0 or F0 form, an encoded surrogate (ED A0..BF) or a value above U+10FFFF (F4 90..BF) |
| Utf8.FromUtf8RejectsTruncated | src/auth/request.rs:76-87 | strict decoding rejects every string that ends inside its first character |
| Utf8.FromUtf8AcceptsScalars | src/auth/request.rs:76-87 | strict decoding accepts, unchanged, every two-, three- and four-byte encoding of a scalar value (lead C2..DF, E0..EF or F0..F4 with the second-byte range the lead allows) in front of any well-formed rest |
| Utf8.ValidConcat | src/auth/request.rs:76-87 | validity is checked character by character: two strings the strict decoder accepts are accepted when joined |
| Utf8.Lossy | src/conn/request.rs:167 | lossy decoding always yields well-formed UTF-8 |
| Utf8.LossyOfValid | src/conn/request.rs:167 | lossy decoding leaves well-formed input unchanged |
| Utf8.LossyChangesExactlyInvalid | src/conn/request.rs:167 | lossy decoding changes its input if and only if the input is ill-formed |
| MethodCodec.MethodFromU8Total | src/msg/method.rs:90-98 | every byte decodes to a method, the method is in its variant's range, and encoding it gives the byte back |
| MethodCodec.MethodFromU8Classifies | src/msg/method.rs:90-98 | 00/01/02/FF are the fixed methods, 03-7F IANA-assigned, 80-FE private, each as an if-and-only-if |
| MethodCodec.MethodRoundTrip | src/msg/method.rs:76-98 | a well-formed method survives encode then decode |
| MethodCodec.MethodToU8Injective | src/msg/method.rs:76-82 | distinct well-formed methods have distinct bytes |
| MethodCodec.FixedTryFromU8Exact | src/msg/method.rs:63-71 | exactly 00, 01, 02 and FF are fixed methods; any other byte b gives UnknownMethod(b) |
| MethodCodec.FixedRoundTrip | src/msg/method.rs:55-71 | a fixed method survives encode then decode |
| Handshake.VersionMessageTryFrom | src/msg/message.rs:66-87 | the byte-by-byte loop computes the version-message parse |
| Handshake.ParseVersionMessageSpec | src/msg/message.rs:66-87 | too short, wrong version and incomplete list are the errors in that order; success iff VER 5 and NMETHODS methods present; method i encodes back to byte 2+i |
| Handshake.ParseVersionMessageIgnoresTrailing | src/msg/message.rs:76-86 | bytes after the declared methods do not change the result |
| Handshake.ParseVersionMessageRoundTrip | src/msg/message.rs:52-87 | encoding up to 255 well-formed methods and parsing gives `VersionMessage::new` of them, whatever trails |
| Handshake.IncompleteVersionMessageExample | src/msg/message.rs:76-79 | `[5,3,0]` is incomplete, `[5,1,0]` offers only NO AUTH |
| Handshake.MethodSelectionTryFromSpec | src/msg/message.rs:145-157 | too short and wrong version are the only errors; otherwise the method is byte 1 decoded |
| Handshake.MethodSelectionRoundTrip | src/msg/message.rs:127-157 | `new` sets VER 5, the bytes are `[5, method]`, and they decode back |
| Handshake.NoAuthSelectionBytes | src/msg/message.rs:120-134 | the documented NO AUTH selection is `[5, 0]`; `VersionMessage::new` sets VER 5 |
| AuthRequestCodec.AuthRequestTryFromSpec | src/auth/request.rs:61-90 | each error (too short, version, truncated or non-UTF-8 username, truncated or non-UTF-8 password) in the order checked, and the fields on success |
| AuthRequestCodec.AuthRequestRoundTrip | src/auth/request.rs:42-90 | credentials of at most 255 bytes, encoded and followed by anything, decode to `AuthRequest::new` of them |
| AuthRequestCodec.UsernameCheckedFirst | src/auth/request.rs:76-84 | an invalid username is reported before the password is looked at |
| AuthRequestCodec.EmptyCredentialsAccepted | src/auth/request.rs:71-89 | zero-length username and password are accepted |
| AuthReplyCodec.AuthReplyTryFromSpec | src/auth/reply.rs:67-83 | exactly two bytes with VER 1 decode; status 00 is success, anything else failure |
| AuthReplyCodec.AuthReplyRoundTrip | src/auth/reply.rs:47-83 | `new` sets VER 1, the bytes are `[1,0]` or `[1,1]`, and they decode back |
| AddressType.AtypCodec | src/lib.rs:42-51 | exactly 01, 03 and 04 are address types, and the two maps are inverse |
| Parse.ParseIpPortV4 | src/parse.rs:72-80 | tag 01 fails iff fewer than 6 bytes; otherwise four octets, big-endian port, 6 used |
| Parse.ParseIpPortV6 | src/parse.rs:81-97 | tag 04 fails iff fewer than 18 bytes; otherwise the sixteen octets in order, segment i from bytes 2i and 2i+1, port from bytes 16 and 17, 18 used |
| Parse.ParseIpPortOtherTags | src/parse.rs:70-100 | every other tag, the domain tag included, yields none |
| Parse.ParseIpPortIgnoresTrailing | src/parse.rs:72-97 | bytes beyond the ones used do not matter |
| Parse.Ipv6SegmentsOfNew | src/parse.rs:86-95 | an address built from eight segments gives back those segments |
| Parse.ParseIpPortExample | src/parse.rs:15-18 | `[127,0,0,1,0x1F,0x90]` is 127.0.0.1:8080 with 6 bytes used |
| ConnAddr.AddrPortBytes | src/conn/request.rs:84-98 | the address field is 6, 18 or 3 plus the name's length long; it ends in the big-endian port; a domain's length byte is its length mod 256 |
| ConnAddr.ExtendWithAddrPort | src/conn/request.rs:84-98 | appending the address field in place leaves the buffer followed by the field |
| ConnAddr.DecodeAddrPortCorrected | src/conn/request.rs:162-170 | the decoder as written can only fail to be defined on a 4-byte domain request; the corrected one agrees with it elsewhere and reports InvalidDomain there |
| ConnAddr.DecodeAddrPortErrors | src/conn/request.rs:143-170 | IPv4 fails iff under 10 bytes, IPv6 iff under 22, both as ConnRequestTooShort; a domain fails iff its length byte or name and port are missing, as InvalidDomain |
| ConnAddr.DecodedAddrPortShape | src/conn/request.rs:143-171 | the decoded address has the tag it was decoded under; IP addresses re-encode to their bytes; a domain is the lossy decoding of its declared bytes with the port after them |
| ConnAddr.DecodeEncodedAddrPort | src/conn/request.rs:81-171 | an encodable address, behind any header and before any trailing bytes, decodes back to itself |
| ConnAddr.ReencodeDecodedAddrPort | src/conn/request.rs:81-171 | a decoded address whose name bytes were valid UTF-8 re-encodes to exactly the bytes it came from |
| ConnRequestCodec.CmdCodec | src/conn/request.rs:127-132 | exactly 01, 02 and 03 are commands, and the two maps are inverse |
| ConnRequestCodec.ConnRequestToBytes | src/conn/request.rs:81-101 | the bytes are the four header bytes and the address field, with their lengths, the truncated length byte and the trailing port |
| ConnRequestCodec.ConnRequestTryFromSpec | src/conn/request.rs:120-180 | length, command, address type, address are checked in that order with their errors; VER and RSV are copied; the result's tag matches its address |
| ConnRequestCodec.ConnRequestRoundTrip | src/conn/request.rs:81-180 | a request whose tag matches its address and whose name fits in 255 bytes decodes back from its bytes plus anything |
| ConnRequestCodec.ConnRequestReencode | src/conn/request.rs:81-180 | a decoded request with a valid UTF-8 name re-encodes to a prefix of its bytes |
| ConnRequestCodec.ConnRequestDomainExample | src/conn/request.rs:162-170 | `[5,1,0,3,11,"example.com",0,80]` is a CONNECT to example.com:80 and re-encodes to the same bytes |
| ConnRequestCodec.ConnRequestIpv4Example | src/conn/request.rs:143-152 | `[5,1,0,1,127,0,0,1,0x1F,0x90]` is a CONNECT to 127.0.0.1:8080 |
| ConnRequestCodec.DomainLengthTruncated | src/conn/request.rs:93-96 | a 256-byte name is announced as length 0 and decodes to an empty name with a port taken from the name |
| ConnRequestCodec.RequestDomainLengthUnchecked | src/conn/request.rs:162-170 | `[5,1,0,3]` passes every header check yet has no length byte; the corrected decoder reports InvalidDomain |
| ConnReplyCodec.RepCodec | src/conn/reply.rs:112-123 | exactly 00 to 08 are reply codes, and the two maps are inverse |
| ConnReplyCodec.ConnReplyToBytes | src/conn/reply.rs:78-98 | the header bytes are VER, REP, RSV, ATYP, followed by the address field with its lengths and trailing port |
| ConnReplyCodec.ConnReplyTryFromSpec | src/conn/reply.rs:105-171 | length (ReplyTooShort), reply code (reported as ConnRequestTooShort), address type, address, in that order; VER and RSV copied |
| ConnReplyCodec.ConnReplyRoundTrip | src/conn/reply.rs:78-171 | a reply whose tag matches its address and whose name fits decodes back from its bytes plus anything |
| ConnReplyCodec.ConnReplyReencode | src/conn/reply.rs:78-171 | a decoded reply with a valid UTF-8 name re-encodes to a prefix of its bytes |
| ConnReplyCodec.SucceededUnspecifiedExample | src/conn/reply.rs:78-171 | success for 0.0.0.0:0 is `[5,0,0,1,0,0,0,0,0,0]` and decodes back |
| ConnReplyCodec.ReplyDomainLengthUnchecked | src/conn/reply.rs:153-161 | `[5,0,0,3]` passes every header check yet has no length byte; the corrected decoder reports InvalidDomain |
| Server.ReadChunk | src/lib.rs:134-136 | one read returns at most 512 bytes |
| Server.ReadChunkLosesNothing | src/lib.rs:134-136 | a read neither loses nor invents bytes, returns a prefix of the next chunk, and is empty only at end of stream or on an empty chunk |
| Server.Stream.Read | src/lib.rs:134-136 | the read consumes according to ReadChunk and records what it returned |
| Server.Stream.WriteAll | src/lib.rs:145 | a write records its bytes and reads nothing |
| Server.SelectMethodPolicy | src/lib.rs:199-213 | the choice is offered and enabled or NO ACCEPTABLE; it is NO ACCEPTABLE iff no offered method is enabled; NO AUTH wins over USERNAME/PASSWORD |
| Server.SelectMethodOrderIndependent | src/lib.rs:201-213 | only the set of offered methods matters |
| Server.MalformedHelloSendsNothing | src/lib.rs:197 | a bad version message fails with its parse error before anything is written |
| Server.SelectionSentFirst | src/lib.rs:197-215 | after a good version message the next event is `[5, selected]`; at most one read and one write follow, and only for USERNAME/PASSWORD |
| Server.NoAuthOutcome | src/lib.rs:218 | NO AUTH succeeds right after sending `[5,0]` |
| Server.NoAcceptableOutcome | src/lib.rs:233 | NO ACCEPTABLE fails with "no acceptable method" after sending `[5,0xFF]` |
| Server.UserPassOutcome | src/lib.rs:220-231 | a validator is present; a bad request fails with no reply; otherwise `[1,0]` and success or `[1,1]` and "invalid credentials" as the validator says |
| Server.AuthenticateOkIffPermitted | src/lib.rs:196-235 | authentication succeeds if and only if NO AUTH is allowed and offered, or USERNAME/PASSWORD is enabled, offered and the credentials sent are accepted |
| Server.NoAuthPreferredExample | src/lib.rs:201-206 | with both methods enabled and `[5,2,2,0]` offered, NO AUTH is chosen |
| Server.AdminCredentialsExample | src/lib.rs:220-231 | admin/admin is let in after `[1,0]`; admin/wrong gets `[1,1]` and an authentication failure |
| Server.OversizedCredentialsCut | src/lib.rs:150-154 | credentials longer than 509 bytes together, such as two 255-byte strings, are cut by the 512-byte read: the call fails with "truncated before password", sends no reply and leaves the rest for the next read |
| Server.NoAuthConnectScenario | src/lib.rs:196-235 | a NO AUTH server answers `[5,1,0]` with `[5,0]` and then reads a CONNECT to 127.0.0.1:8080 |
| Server.SendConnReplyHeader | src/lib.rs:174-183 | a reply sent by `send_conn_reply` starts with VER 5 and RSV 0 around the given code and type |
| Server.Socks5.Bind | src/lib.rs:87-94 | a new server has both methods disabled |
| Server.Socks5.AllowNoAuth | src/lib.rs:97-99 | enables NO AUTH and leaves the validator alone |
| Server.Socks5.AllowUserpass | src/lib.rs:106-111 | installs the validator, replacing any earlier one, and leaves NO AUTH alone |
| Server.Socks5.ReadVersionMessage | src/lib.rs:131-137 | one read, parsed as a version message |
| Server.Socks5.SendMethodSelection | src/lib.rs:140-147 | writes `[5, method]` |
| Server.Socks5.ReadAuthRequest | src/lib.rs:150-154 | one read, parsed as an authentication request |
| Server.Socks5.SendAuthReply | src/lib.rs:157-164 | writes `[1, status]` |
| Server.Socks5.ReadConnRequest | src/lib.rs:167-171 | one read, parsed as a connection request |
| Server.Socks5.SendConnReply | src/lib.rs:174-183 | writes the reply with VER 5 and RSV 0 |
| Server.Socks5.UserPassRound | src/lib.rs:220-231 | the USERNAME/PASSWORD arm has the result, transcript and leftover input of the Negotiate specification |
| Server.Socks5.Authenticate | src/lib.rs:196-235 | the call's result, transcript and unread input are those of AuthenticateSession |

## Left out

- Transport: the TCP listener and its callers (`bind`'s address, `accept`,
  `local_addr`, `bind_udp`) are not modelled. A connection is a queue of chunks
  the peer delivers, and each `read` returns the next chunk, cut at the
  512-byte buffer. Which chunks the network produces is an input of the model.
- I/O errors are not modelled. Reads and writes always succeed, so
  `SocksError::Io` is never produced. A read at end of stream returns no bytes.
- Concurrency and `async` scheduling are not modelled: one connection is
  handled by one task.
- The validator closure is a total function value. `Send + Sync` and side
  effects of the closure are not modelled.
- `Ipv4Addr` and `Ipv6Addr` are their octets. The standard library's address
  types are not part of this model beyond `Ipv6Addr::new` and `segments`.
- `Display` implementations only produce text for logging. They are left out.
- `ConnRequest::new`, `ConnReply::new`, `AuthRequest::new` and the other
  `new` functions that only fill fields are datatype constructors or
  one-line functions.
- `VersionMessage::try_from` forwards a failure of `Method::from_u8` with `?`.
  `Handshake.VersionMessageTryFrom` keeps that branch and proves it
  unreachable, because `from_u8` is total (`MethodCodec.MethodFromU8Total`).
  `MethodSelectionTryFrom` forwards the error as the source does. Only the
  specification function `ParseVersionMessage` leaves the branch out.
- Server.Socks5.UserPassRound: the USERNAME/PASSWORD arm of `authenticate`
  is factored into its own method. The behaviour is the same inline code.
- ConnRequestCodec.ConnRequestTryFrom and ConnReplyCodec.ConnReplyTryFrom use
  the corrected address decoder. The panicking path is modelled separately
  (see Findings).
- src/main.rs, src/reply.rs, src/request.rs, src/method.rs and
  examples/simple_server.rs are not part of this model. They are an older copy
  and a usage example, not the library's negotiation code.
- src/error.rs: every `SocksError` variant is mirrored. `Io` has no payload
  and is never produced, since reads and writes do not fail here. The
  `Display` and `From<io::Error>` implementations are not modelled.

## Findings

| source | as written | input that shows it | evidently intended | confidence | as-written member | corrected member |
|---|---|---|---|---|---|---|
| src/conn/request.rs:162-170 | for ATYP 03 the length byte `buf[4]` is indexed before any check that it exists, so a 4-byte request panics | `[5, 1, 0, 3]` | report `InvalidDomain` for a missing length byte like any other truncated domain | not executed | ConnRequestCodec.RequestDomainLengthUnchecked | ConnAddr.DecodeAddrPortCorrected |
| src/conn/reply.rs:153-161 | the same unchecked `buf[4]` in `ConnReply::try_from` panics on a 4-byte reply | `[5, 0, 0, 3]` | report `InvalidDomain` | not executed | ConnReplyCodec.ReplyDomainLengthUnchecked | ConnAddr.DecodeAddrPortCorrected |

The code as written is `ConnAddr.DecodeAddrPortAsWritten`. Its precondition
`AddrIndexInBounds` states where its indexing stays in bounds, and the two
lemmas above show that the inputs named pass every earlier check and still
violate it. `ConnAddr.DecodeAddrPort` adds the missing check. Both decoders in
the model use it.
