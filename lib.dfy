/** The server side of the negotiation: the `Socks5` configuration, its
    setters, the read/send helpers and `authenticate`, over a transport
    reduced to a queue of incoming chunks and a transcript of what was
    received and sent. */
module Server {
  import opened Bytes
  import opened Errors
  import opened Utf8
  import opened Parse
  import opened AddressType
  import opened MethodCodec
  import opened Handshake
  import opened AuthRequestCodec
  import opened AuthReplyCodec
  import opened ConnRequestCodec
  import opened ConnReplyCodec
  import opened ConnAddr

  /** Every read goes into a fresh 512-byte buffer. */
  const ReadBufferSize: nat := 512

  /** One step of the transcript: the bytes one read returned, or the bytes
      one `write_all` sent. */
  datatype Event = Received(data: seq<Byte>) | Sent(data: seq<Byte>)

  /** The bytes of a queue of chunks, in order. */
  function Flatten(chunks: seq<seq<Byte>>): seq<Byte>
  {
    if chunks == [] then [] else chunks[0] + Flatten(chunks[1..])
  }

  /** One read: the next chunk the peer delivered, cut at the buffer size
      with the remainder left for the next read; nothing at end of stream. */
  function ReadChunk(input: seq<seq<Byte>>): (r: (seq<Byte>, seq<seq<Byte>>))
    ensures |r.0| <= ReadBufferSize
  {
    if input == [] then ([], [])
    else if |input[0]| <= ReadBufferSize then (input[0], input[1..])
    else (input[0][..ReadBufferSize], [input[0][ReadBufferSize..]] + input[1..])
  }

  /** A read neither loses nor invents bytes: what it returns, followed by
      what is left, is what there was. It returns nothing only at the end
      of the stream or on an empty chunk. */
  lemma ReadChunkLosesNothing(input: seq<seq<Byte>>)
    ensures Flatten(input) == ReadChunk(input).0 + Flatten(ReadChunk(input).1)
    ensures ReadChunk(input).0 == [] <==> input == [] || input[0] == []
    ensures input != [] ==> ReadChunk(input).0 <= input[0]
  {
    if input != [] && |input[0]| > ReadBufferSize {
      var head, tail := input[0][..ReadBufferSize], input[0][ReadBufferSize..];
      assert ([tail] + input[1..])[1..] == input[1..];
      assert input[0] == head + tail;
    }
  }

  /** The client connection: what is still to be read, and what has
      happened on it so far. */
  class Stream {
    var input: seq<seq<Byte>>
    var trace: seq<Event>

    constructor (input: seq<seq<Byte>>)
      ensures this.input == input && trace == []
    {
      this.input := input;
      trace := [];
    }

    /** `stream.read(&mut buf)` followed by `&buf[..n]`. */
    method Read() returns (bytes: seq<Byte>)
      modifies this
      ensures (bytes, input) == ReadChunk(old(input))
      ensures |bytes| <= ReadBufferSize
      ensures trace == old(trace) + [Received(bytes)]
    {
      if input == [] {
        bytes := [];
      } else if |input[0]| <= ReadBufferSize {
        bytes := input[0];
        input := input[1..];
      } else {
        bytes := input[0][..ReadBufferSize];
        input := [input[0][ReadBufferSize..]] + input[1..];
      }
      trace := trace + [Received(bytes)];
    }

    /** `stream.write_all(bytes)`. */
    method WriteAll(bytes: seq<Byte>)
      modifies this
      ensures input == old(input)
      ensures trace == old(trace) + [Sent(bytes)]
    {
      trace := trace + [Sent(bytes)];
    }
  }

  /** The username/password check the server owner supplies. */
  type Validator = (Utf8String, Utf8String) -> bool

  /** A method the configuration lets the server choose. */
  predicate Enabled(allowNoAuth: bool, hasValidator: bool, m: Method)
  {
    (m == Fixed(NoAuth) && allowNoAuth) || (m == Fixed(UsePass) && hasValidator)
  }

  /** The selection rule of `authenticate`: NO AUTH when it is allowed and
      offered, else USERNAME/PASSWORD when a validator is set and it is
      offered, else NO ACCEPTABLE METHODS. */
  function SelectMethod(allowNoAuth: bool, hasValidator: bool, methods: seq<Method>): Method
  {
    if allowNoAuth && Fixed(NoAuth) in methods then Fixed(NoAuth)
    else if hasValidator && Fixed(UsePass) in methods then Fixed(UsePass)
    else Fixed(NoAcceptable)
  }

  /** What one call of `authenticate` does to a connection. */
  datatype Session = Session(result: Result<()>, events: seq<Event>, rest: seq<seq<Byte>>)

  /** `authenticate` as a function of the configuration and the bytes the
      client will send. */
  function AuthenticateSession(allowNoAuth: bool, validator: Option<Validator>, input: seq<seq<Byte>>): Session
  {
    var hello, afterHello := ReadChunk(input).0, ReadChunk(input).1;
    match ParseVersionMessage(hello)
    case Err(e) => Session(Err(e), [Received(hello)], afterHello)
    case Ok(vm) =>
      var selected := SelectMethod(allowNoAuth, validator.Some?, vm.methods);
      var n := Negotiate(selected, validator, afterHello);
      Session(n.result, [Received(hello), Sent(MethodSelectionToBytes(NewMethodSelection(selected)))] + n.events, n.rest)
  }

  /** What `authenticate` does once the selection has been sent. */
  function Negotiate(selected: Method, validator: Option<Validator>, input: seq<seq<Byte>>): Session
    requires selected == Fixed(UsePass) ==> validator.Some?
  {
    if selected == Fixed(NoAuth) then Session(Ok(()), [], input)
    else if selected == Fixed(UsePass) then
      var creds, afterCreds := ReadChunk(input).0, ReadChunk(input).1;
      match AuthRequestTryFrom(creds)
      case Err(e) => Session(Err(e), [Received(creds)], afterCreds)
      case Ok(req) =>
        if validator.value(req.uname, req.passwd) then
          Session(Ok(()), [Received(creds), Sent(AuthReplyToBytes(NewAuthReply(Success)))], afterCreds)
        else
          Session(Err(AuthFailed("invalid credentials")),
                  [Received(creds), Sent(AuthReplyToBytes(NewAuthReply(Failure)))], afterCreds)
    else Session(Err(AuthFailed("no acceptable method")), [], input)
  }

  /** The selection never picks a method the client did not offer or the
      configuration does not enable; it falls back to NO ACCEPTABLE METHODS
      exactly when no offered method is enabled; and NO AUTH wins over
      USERNAME/PASSWORD wherever each appears in the list. */
  lemma SelectMethodPolicy(allowNoAuth: bool, hasValidator: bool, methods: seq<Method>)
    ensures var m := SelectMethod(allowNoAuth, hasValidator, methods);
            && (m == Fixed(NoAcceptable) || (m in methods && Enabled(allowNoAuth, hasValidator, m)))
            && (m == Fixed(NoAcceptable) <==> forall x :: x in methods ==> !Enabled(allowNoAuth, hasValidator, x))
            && (allowNoAuth && Fixed(NoAuth) in methods ==> m == Fixed(NoAuth))
            && (!(allowNoAuth && Fixed(NoAuth) in methods) && hasValidator && Fixed(UsePass) in methods ==>
                  m == Fixed(UsePass))
  {
    var m := SelectMethod(allowNoAuth, hasValidator, methods);
    if m == Fixed(NoAcceptable) {
      forall x | x in methods
        ensures !Enabled(allowNoAuth, hasValidator, x)
      {
      }
    }
  }

  /** The selection depends only on which methods are offered, not on
      their order or repetitions. */
  lemma SelectMethodOrderIndependent(allowNoAuth: bool, hasValidator: bool, m1: seq<Method>, m2: seq<Method>)
    requires forall x :: x in m1 <==> x in m2
    ensures SelectMethod(allowNoAuth, hasValidator, m1) == SelectMethod(allowNoAuth, hasValidator, m2)
  {
    assert Fixed(NoAuth) in m1 <==> Fixed(NoAuth) in m2;
    assert Fixed(UsePass) in m1 <==> Fixed(UsePass) in m2;
  }

  /** The selection the client receives for a given opening chunk. */
  function SelectionFor(allowNoAuth: bool, validator: Option<Validator>, hello: seq<Byte>): Method
    requires ParseVersionMessage(hello).Ok?
  {
    SelectMethod(allowNoAuth, validator.Some?, ParseVersionMessage(hello).value.methods)
  }

  /** A malformed version message ends the call with its parse error
      before anything is written. */
  lemma MalformedHelloSendsNothing(allowNoAuth: bool, validator: Option<Validator>, input: seq<seq<Byte>>)
    requires ParseVersionMessage(ReadChunk(input).0).Err?
    ensures AuthenticateSession(allowNoAuth, validator, input) ==
              Session(Err(ParseVersionMessage(ReadChunk(input).0).error), [Received(ReadChunk(input).0)], ReadChunk(input).1)
  {
  }

  /** Once the version message parses, the very next event is the
      two-byte selection `[5, method]`, whatever follows; at most one more
      read and one more write come after it. */
  lemma SelectionSentFirst(allowNoAuth: bool, validator: Option<Validator>, input: seq<seq<Byte>>)
    requires ParseVersionMessage(ReadChunk(input).0).Ok?
    ensures var s := AuthenticateSession(allowNoAuth, validator, input);
            var hello := ReadChunk(input).0;
            && 2 <= |s.events| <= 4
            && s.events[0] == Received(hello)
            && s.events[1] == Sent([5, MethodToU8(SelectionFor(allowNoAuth, validator, hello))])
            && (|s.events| > 2 ==> s.events[2].Received? && SelectionFor(allowNoAuth, validator, hello) == Fixed(UsePass))
            && (|s.events| > 3 ==> s.events[3].Sent?)
  {
  }

  /** With NO AUTH selected the call succeeds with no sub-negotiation. */
  lemma NoAuthOutcome(allowNoAuth: bool, validator: Option<Validator>, input: seq<seq<Byte>>)
    requires ParseVersionMessage(ReadChunk(input).0).Ok?
    requires SelectionFor(allowNoAuth, validator, ReadChunk(input).0) == Fixed(NoAuth)
    ensures AuthenticateSession(allowNoAuth, validator, input) ==
              Session(Ok(()), [Received(ReadChunk(input).0), Sent([5, 0x00])], ReadChunk(input).1)
  {
  }

  /** With NO ACCEPTABLE METHODS selected the call fails right after
      sending `[5, 0xFF]`, reading nothing more. */
  lemma NoAcceptableOutcome(allowNoAuth: bool, validator: Option<Validator>, input: seq<seq<Byte>>)
    requires ParseVersionMessage(ReadChunk(input).0).Ok?
    requires SelectionFor(allowNoAuth, validator, ReadChunk(input).0) == Fixed(NoAcceptable)
    ensures AuthenticateSession(allowNoAuth, validator, input) ==
              Session(Err(AuthFailed("no acceptable method")), [Received(ReadChunk(input).0), Sent([5, 0xFF])],
                      ReadChunk(input).1)
  {
  }

  /** With USERNAME/PASSWORD selected the second chunk is read as an
      authentication request; a malformed one ends the call with its parse
      error and no reply, otherwise the validator's verdict is sent as
      `[1, 0]` (success) or `[1, 1]` (failure). */
  lemma UserPassOutcome(allowNoAuth: bool, validator: Option<Validator>, input: seq<seq<Byte>>)
    requires ParseVersionMessage(ReadChunk(input).0).Ok?
    requires SelectionFor(allowNoAuth, validator, ReadChunk(input).0) == Fixed(UsePass)
    ensures validator.Some?
    ensures var s := AuthenticateSession(allowNoAuth, validator, input);
            var hello, creds := ReadChunk(input).0, ReadChunk(ReadChunk(input).1).0;
            var opening := [Received(hello), Sent([5, 0x02]), Received(creds)];
            var after := ReadChunk(ReadChunk(input).1).1;
            match AuthRequestTryFrom(creds)
            case Err(e) => s == Session(Err(e), opening, after)
            case Ok(req) =>
              if validator.value(req.uname, req.passwd) then s == Session(Ok(()), opening + [Sent([1, 0])], after)
              else s == Session(Err(AuthFailed("invalid credentials")), opening + [Sent([1, 1])], after)
  {
  }

  /** The credentials the client's second chunk carries, when it is a
      well-formed authentication request. */
  function CredentialsIn(input: seq<seq<Byte>>): Option<AuthRequest>
  {
    var creds := AuthRequestTryFrom(ReadChunk(ReadChunk(input).1).0);
    if creds.Ok? then Some(creds.value) else None
  }

  /** When the server should let the client in: NO AUTH is allowed and
      offered, or USERNAME/PASSWORD is enabled and offered and the
      validator accepts the credentials sent. */
  predicate Permitted(allowNoAuth: bool, validator: Option<Validator>, input: seq<seq<Byte>>)
  {
    var hello := ParseVersionMessage(ReadChunk(input).0);
    && hello.Ok?
    && ((allowNoAuth && Fixed(NoAuth) in hello.value.methods)
        || (validator.Some? && Fixed(UsePass) in hello.value.methods &&
            CredentialsIn(input).Some? && validator.value(CredentialsIn(input).value.uname, CredentialsIn(input).value.passwd)))
  }

  /** `authenticate` succeeds exactly when the client is permitted: there is
      no way in without an enabled method, and no permitted client is
      turned away. */
  lemma AuthenticateOkIffPermitted(allowNoAuth: bool, validator: Option<Validator>, input: seq<seq<Byte>>)
    ensures AuthenticateSession(allowNoAuth, validator, input).result.Ok? <==> Permitted(allowNoAuth, validator, input)
  {
    var hello := ReadChunk(input).0;
    if ParseVersionMessage(hello).Ok? {
      var selected := SelectionFor(allowNoAuth, validator, hello);
      if selected == Fixed(UsePass) {
        UserPassOutcome(allowNoAuth, validator, input);
      }
    }
  }

  /** The bytes of "admin", and of "wrong". */
  const Admin: seq<Byte> := [0x61, 0x64, 0x6D, 0x69, 0x6E]
  const Wrong: seq<Byte> := [0x77, 0x72, 0x6F, 0x6E, 0x67]

  /** A validator that accepts only admin/admin. */
  const AdminOnly: Validator := (u: Utf8String, p: Utf8String) => u == Admin && p == Admin

  /** A server allowing both methods, offered USERNAME/PASSWORD before
      NO AUTH, selects NO AUTH and succeeds without a sub-negotiation. */
  lemma NoAuthPreferredExample()
    ensures AuthenticateSession(true, Some(AdminOnly), [[5, 2, 2, 0]]) ==
              Session(Ok(()), [Received([5, 2, 2, 0]), Sent([5, 0])], [])
  {
    var hello: seq<Byte> := [5, 2, 2, 0];
    assert [hello][1..] == [];
    assert ReadChunk([hello]) == (hello, []);
    assert DecodeMethods(hello[2..4]) == [Fixed(UsePass), Fixed(NoAuth)];
    NoAuthOutcome(true, Some(AdminOnly), [hello]);
  }

  /** A server with only the admin/admin validator: a client offering
      USERNAME/PASSWORD and sending admin/admin is let in after `[1, 0]`;
      one sending admin/wrong gets `[1, 1]` and an authentication failure. */
  lemma AdminCredentialsExample()
    ensures AuthenticateSession(false, Some(AdminOnly), [[5, 1, 2], AuthRequestBytes(Admin, Admin)]) ==
              Session(Ok(()),
                      [Received([5, 1, 2]), Sent([5, 2]), Received(AuthRequestBytes(Admin, Admin)), Sent([1, 0])], [])
    ensures AuthenticateSession(false, Some(AdminOnly), [[5, 1, 2], AuthRequestBytes(Admin, Wrong)]) ==
              Session(Err(AuthFailed("invalid credentials")),
                      [Received([5, 1, 2]), Sent([5, 2]), Received(AuthRequestBytes(Admin, Wrong)), Sent([1, 1])], [])
  {
    AsciiIsValid(Admin);
    AsciiIsValid(Wrong);
    var hello: seq<Byte> := [5, 1, 2];
    assert DecodeMethods(hello[2..3]) == [Fixed(UsePass)];
    AdminAttempt(hello, Admin);
    AdminAttempt(hello, Wrong);
  }

  lemma AdminAttempt(hello: seq<Byte>, passwd: Utf8String)
    requires hello == [5, 1, 2] && |passwd| <= 0xFF && Valid(Admin)
    requires ParseVersionMessage(hello) == Ok(VersionMessage(5, [Fixed(UsePass)]))
    ensures var creds := AuthRequestBytes(Admin, passwd);
            AuthenticateSession(false, Some(AdminOnly), [hello, creds]) ==
              Session(if passwd == Admin then Ok(()) else Err(AuthFailed("invalid credentials")),
                      [Received(hello), Sent([5, 2]), Received(creds), Sent([1, if passwd == Admin then 0 else 1])], [])
  {
    var creds := AuthRequestBytes(Admin, passwd);
    var input := [hello, creds];
    assert ReadChunk(input) == (hello, [creds]);
    var none: seq<seq<Byte>> := [];
    assert [creds][1..] == none;
    assert ReadChunk([creds]) == (creds, []);
    assert AuthRequestBytes(Admin, passwd) + [] == creds;
    AuthRequestRoundTrip(Admin, passwd, []);
    UserPassOutcome(false, Some(AdminOnly), input);
  }

  /** A request that does not fit the 512-byte read buffer is cut by the
      read: when username and password together exceed 509 bytes (two
      255-byte strings, say, which the codec accepts), the password is
      reported truncated, no reply is sent, and the bytes past the buffer
      are left for the next read. */
  lemma OversizedCredentialsCut(validator: Validator, uname: Utf8String, passwd: seq<Byte>)
    requires |uname| <= 0xFF && |passwd| <= 0xFF
    requires 3 + |uname| + |passwd| > ReadBufferSize
    ensures var creds := AuthRequestBytes(uname, passwd);
            AuthenticateSession(false, Some(validator), [[5, 1, 2], creds]) ==
              Session(Err(AuthFailed("truncated before password")),
                      [Received([5, 1, 2]), Sent([5, 2]), Received(creds[..ReadBufferSize])],
                      [creds[ReadBufferSize..]])
  {
    var hello: seq<Byte> := [5, 1, 2];
    var creds := AuthRequestBytes(uname, passwd);
    assert |creds| == 3 + |uname| + |passwd|;
    var cut := creds[..ReadBufferSize];
    var none: seq<seq<Byte>> := [];
    assert [hello, creds][1..] == [creds];
    assert [creds][1..] == none;
    assert DecodeMethods(hello[2..3]) == [Fixed(UsePass)];
    assert [creds[ReadBufferSize..]] + none == [creds[ReadBufferSize..]];
    assert ReadChunk([creds]) == (cut, [creds[ReadBufferSize..]]);
    assert cut[1] == |uname| && cut[2..2 + |uname|] == uname && cut[2 + |uname|] == |passwd|;
    AuthRequestTryFromSpec(cut);
    UserPassOutcome(false, Some(validator), [hello, creds]);
  }

  /** A whole negotiation against a server that allows NO AUTH: the client
      offers only NO AUTH, gets `[5, 0]`, then asks to CONNECT to
      127.0.0.1:8080, and the server reads that request. */
  method NoAuthConnectScenario() returns (auth: Result<()>, req: Result<ConnRequest>, trace: seq<Event>)
    ensures auth == Ok(())
    ensures req == Ok(ConnRequest(5, Connect, 0, ATYP.V4, AddrPort.V4([127, 0, 0, 1], 8080)))
    ensures trace == [Received([5, 1, 0]), Sent([5, 0]), Received([5, 1, 0, 1, 127, 0, 0, 1, 0x1F, 0x90])]
  {
    var server := new Socks5.Bind();
    server.AllowNoAuth();
    var hello: seq<Byte> := [5, 1, 0];
    var connect: seq<Byte> := [5, 1, 0, 1, 127, 0, 0, 1, 0x1F, 0x90];
    var stream := new Stream([hello, connect]);
    assert [hello, connect][1..] == [connect];
    assert [connect][1..] == [];
    IncompleteVersionMessageExample();
    NoAuthOutcome(true, None, [hello, connect]);
    auth := server.Authenticate(stream);
    req := Socks5.ReadConnRequest(stream);
    ConnRequestIpv4Example();
    trace := stream.trace;
  }

  /** `send_conn_reply` always writes VER 5 and RSV 0 ahead of the given
      code, address type and address. */
  lemma SendConnReplyHeader(rep: Rep, atyp: ATYP, addr: AddrPort)
    ensures var bytes := ConnReplyBytes(ConnReply(5, rep, 0, atyp, addr));
            bytes[..4] == [0x05, RepToU8(rep), 0x00, AtypToU8(atyp)] && bytes[4..] == AddrPortBytes(addr)
  {
  }

  /** The server. The listener is not part of this model. */
  class Socks5 {
    var allowNoAuth: bool
    var userpassValidator: Option<Validator>

    /** `Socks5::bind`: both methods start disabled. */
    constructor Bind()
      ensures !allowNoAuth && userpassValidator == None
    {
      allowNoAuth := false;
      userpassValidator := None;
    }

    /** `allow_no_auth`. */
    method AllowNoAuth()
      modifies this
      ensures allowNoAuth && userpassValidator == old(userpassValidator)
    {
      allowNoAuth := true;
    }

    /** `allow_userpass`: a later validator replaces an earlier one. */
    method AllowUserpass(validator: Validator)
      modifies this
      ensures userpassValidator == Some(validator) && allowNoAuth == old(allowNoAuth)
    {
      userpassValidator := Some(validator);
    }

    /** `read_version_message`. */
    static method ReadVersionMessage(stream: Stream) returns (r: Result<VersionMessage>)
      modifies stream
      ensures var (hello, after) := ReadChunk(old(stream.input));
              && r == ParseVersionMessage(hello)
              && stream.input == after
              && stream.trace == old(stream.trace) + [Received(hello)]
    {
      var buf := stream.Read();
      r := VersionMessageTryFrom(buf);
    }

    /** `send_method_selection`. */
    static method SendMethodSelection(stream: Stream, m: Method)
      modifies stream
      ensures stream.input == old(stream.input)
      ensures stream.trace == old(stream.trace) + [Sent([5, MethodToU8(m)])]
    {
      var sel := NewMethodSelection(m);
      stream.WriteAll(MethodSelectionToBytes(sel));
    }

    /** `read_auth_request`. */
    static method ReadAuthRequest(stream: Stream) returns (r: Result<AuthRequest>)
      modifies stream
      ensures var (creds, after) := ReadChunk(old(stream.input));
              && r == AuthRequestTryFrom(creds)
              && stream.input == after
              && stream.trace == old(stream.trace) + [Received(creds)]
    {
      var buf := stream.Read();
      r := AuthRequestTryFrom(buf);
    }

    /** `send_auth_reply`. */
    static method SendAuthReply(stream: Stream, status: AuthStatus)
      modifies stream
      ensures stream.input == old(stream.input)
      ensures stream.trace == old(stream.trace) + [Sent([1, AuthStatusToU8(status)])]
    {
      var reply := NewAuthReply(status);
      stream.WriteAll(AuthReplyToBytes(reply));
    }

    /** `read_conn_request`. */
    static method ReadConnRequest(stream: Stream) returns (r: Result<ConnRequest>)
      modifies stream
      ensures var (req, after) := ReadChunk(old(stream.input));
              && r == ConnRequestTryFrom(req)
              && stream.input == after
              && stream.trace == old(stream.trace) + [Received(req)]
    {
      var buf := stream.Read();
      r := ConnRequestTryFrom(buf);
    }

    /** `send_conn_reply`: VER is always 5 and RSV always 0. */
    static method SendConnReply(stream: Stream, rep: Rep, atyp: ATYP, addr: AddrPort)
      modifies stream
      ensures stream.input == old(stream.input)
      ensures stream.trace == old(stream.trace) + [Sent(ConnReplyBytes(ConnReply(5, rep, 0, atyp, addr)))]
    {
      var reply := ConnReply(0x05, rep, 0x00, atyp, addr);
      var bytes := ConnReplyToBytes(reply);
      stream.WriteAll(bytes);
    }

    /** The USERNAME/PASSWORD arm of `authenticate`: read the credentials,
        ask the validator, send the verdict. */
    method UserPassRound(stream: Stream) returns (r: Result<()>)
      requires userpassValidator.Some?
      modifies stream
      ensures var n := Negotiate(Fixed(UsePass), userpassValidator, old(stream.input));
              && r == n.result
              && stream.trace == old(stream.trace) + n.events
              && stream.input == n.rest
    {
      var authReq := ReadAuthRequest(stream);
      if authReq.Err? {
        return Err(authReq.error);
      }
      var validator := userpassValidator.value;
      if validator(authReq.value.uname, authReq.value.passwd) {
        SendAuthReply(stream, Success);
        r := Ok(());
      } else {
        SendAuthReply(stream, Failure);
        r := Err(AuthFailed("invalid credentials"));
      }
    }

    /** `authenticate`: the call's result, the transcript it appends and
        what it leaves unread are those of AuthenticateSession. */
    method Authenticate(stream: Stream) returns (r: Result<()>)
      modifies stream
      ensures var s := AuthenticateSession(allowNoAuth, userpassValidator, old(stream.input));
              && r == s.result
              && stream.trace == old(stream.trace) + s.events
              && stream.input == s.rest
    {
      ghost var trace0 := stream.trace;
      var versionMsg := ReadVersionMessage(stream);
      ghost var hello := Received(ReadChunk(old(stream.input)).0);
      if versionMsg.Err? {
        return Err(versionMsg.error);
      }
      var methods := versionMsg.value.methods;

      var selected := Fixed(NoAcceptable);
      if allowNoAuth && Fixed(NoAuth) in methods {
        selected := Fixed(NoAuth);
      } else if userpassValidator.Some? && Fixed(UsePass) in methods {
        selected := Fixed(UsePass);
      }
      assert selected == SelectMethod(allowNoAuth, userpassValidator.Some?, methods);

      SendMethodSelection(stream, selected);
      ghost var selection := Sent(MethodSelectionToBytes(NewMethodSelection(selected)));
      ghost var selectionSent := stream.trace;
      assert selectionSent == trace0 + [hello, selection];
      ghost var n := Negotiate(selected, userpassValidator, stream.input);

      if selected == Fixed(NoAuth) {
        r := Ok(());
      } else if selected == Fixed(UsePass) {
        r := UserPassRound(stream);
      } else {
        r := Err(AuthFailed("no acceptable method"));
      }
      assert r == n.result && stream.trace == selectionSent + n.events && stream.input == n.rest;
      assert stream.trace == trace0 + ([hello, selection] + n.events);
    }
  }
}
