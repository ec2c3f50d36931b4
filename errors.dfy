/** The error taxonomy of the server (one variant per kind of failure) and the
    Option/Result wrappers the codecs return. */
module Errors {
  import opened Bytes

  datatype SocksError =
    // Version / method selection
    | UnsupportedVersion(version: Byte)
    | VersionMessageTooShort
    | IncompleteVersionMessage
    | UnknownMethod(methodByte: Byte)
    // Authentication
    | UnsupportedAuthVersion(authVersion: Byte)
    | AuthMessageTooShort
    | AuthFailed(reason: string)
    // Connection
    | InvalidAddressType(addressType: Byte)
    | InvalidDomain
    | ConnRequestTooShort
    | UnsupportedCommand(command: Byte)
    | ReplyTooShort
    // General: a transport failure (never produced by the model, see README)
    | Io

  datatype Option<+T> = None | Some(value: T)

  datatype Result<+T> = Ok(value: T) | Err(error: SocksError)
}
