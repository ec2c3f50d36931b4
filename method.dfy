/** Authentication-method identifiers of the method negotiation
    (section 3 of RFC 1928): the reserved values, the IANA-assigned range
    and the private range. */
module MethodCodec {
  import opened Bytes
  import opened Errors

  /** The reserved values. */
  datatype FixedMethod = NoAuth | GssApi | UsePass | NoAcceptable

  /** Any method byte: a reserved value, an IANA-assigned one (03..7F) or a
      private one (80..FE). The payload of the last two is the byte itself. */
  datatype Method = Fixed(fixed: FixedMethod) | IanaAssigned(code: Byte) | Private(code: Byte)

  /** The payload of a range variant lies in its range. Every method that
      `MethodFromU8` produces has this shape. */
  predicate WellFormed(m: Method)
  {
    match m
    case Fixed(_) => true
    case IanaAssigned(b) => 0x03 <= b <= 0x7F
    case Private(b) => 0x80 <= b <= 0xFE
  }

  function FixedToU8(f: FixedMethod): Byte
  {
    match f
    case NoAuth => 0x00
    case GssApi => 0x01
    case UsePass => 0x02
    case NoAcceptable => 0xFF
  }

  function FixedTryFromU8(b: Byte): Result<FixedMethod>
  {
    if b == 0x00 then Ok(NoAuth)
    else if b == 0x01 then Ok(GssApi)
    else if b == 0x02 then Ok(UsePass)
    else if b == 0xFF then Ok(NoAcceptable)
    else Err(UnknownMethod(b))
  }

  function MethodToU8(m: Method): Byte
  {
    match m
    case Fixed(f) => FixedToU8(f)
    case IanaAssigned(b) => b
    case Private(b) => b
  }

  /** Declared fallible like the source, although no byte makes it fail
      (MethodFromU8Total). */
  function MethodFromU8(b: Byte): Result<Method>
  {
    if b == 0x00 then Ok(Fixed(NoAuth))
    else if b == 0x01 then Ok(Fixed(GssApi))
    else if b == 0x02 then Ok(Fixed(UsePass))
    else if b == 0xFF then Ok(Fixed(NoAcceptable))
    else if 0x03 <= b <= 0x7F then Ok(IanaAssigned(b))
    else Ok(Private(b))
  }

  /** Decoding a method byte never fails, yields a well-formed method and
      encoding that method gives the byte back. */
  lemma MethodFromU8Total(b: Byte)
    ensures MethodFromU8(b).Ok?
    ensures WellFormed(MethodFromU8(b).value)
    ensures MethodToU8(MethodFromU8(b).value) == b
  {
  }

  /** Which variant each byte decodes to. */
  lemma MethodFromU8Classifies(b: Byte)
    ensures b == 0x00 <==> MethodFromU8(b) == Ok(Fixed(NoAuth))
    ensures b == 0x01 <==> MethodFromU8(b) == Ok(Fixed(GssApi))
    ensures b == 0x02 <==> MethodFromU8(b) == Ok(Fixed(UsePass))
    ensures b == 0xFF <==> MethodFromU8(b) == Ok(Fixed(NoAcceptable))
    ensures 0x03 <= b <= 0x7F <==> MethodFromU8(b) == Ok(IanaAssigned(b))
    ensures 0x80 <= b <= 0xFE <==> MethodFromU8(b) == Ok(Private(b))
  {
  }

  /** Encoding then decoding gives back every well-formed method. */
  lemma MethodRoundTrip(m: Method)
    requires WellFormed(m)
    ensures MethodFromU8(MethodToU8(m)) == Ok(m)
  {
  }

  /** Equality of well-formed methods is equality of their bytes. */
  lemma MethodToU8Injective(m1: Method, m2: Method)
    requires WellFormed(m1) && WellFormed(m2)
    ensures MethodToU8(m1) == MethodToU8(m2) <==> m1 == m2
  {
    if MethodToU8(m1) == MethodToU8(m2) {
      MethodRoundTrip(m1);
      MethodRoundTrip(m2);
    }
  }

  /** The reserved-value parser accepts exactly 00, 01, 02 and FF, reports
      any other byte as unknown, and agrees with the general decoder. */
  lemma FixedTryFromU8Exact(b: Byte)
    ensures FixedTryFromU8(b).Ok? <==> b in {0x00, 0x01, 0x02, 0xFF}
    ensures FixedTryFromU8(b).Err? ==> FixedTryFromU8(b) == Err(UnknownMethod(b))
    ensures FixedTryFromU8(b).Ok? ==>
              FixedToU8(FixedTryFromU8(b).value) == b &&
              MethodFromU8(b) == Ok(Fixed(FixedTryFromU8(b).value))
  {
  }

  /** The reserved-value parser inverts `FixedToU8`. */
  lemma FixedRoundTrip(f: FixedMethod)
    ensures FixedTryFromU8(FixedToU8(f)) == Ok(f)
  {
  }
}
