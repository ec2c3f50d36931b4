/** Rust `String`s as their UTF-8 bytes: the strict check done by
    `String::from_utf8` and the replacing decoder `String::from_utf8_lossy`.
    Well-formedness follows table 3-7 of the Unicode Standard; the lossy
    decoder replaces each maximal ill-formed subpart by U+FFFD (EF BF BD),
    which is what Rust's `Utf8Chunks` does. */
module Utf8 {
  import opened Bytes
  import opened Errors

  /** Length of the character that lead byte `b` starts; 0 when no
      well-formed sequence starts with `b` (80..C1 and F5..FF). */
  function Width(b: Byte): nat
  {
    if b < 0x80 then 1
    else if 0xC2 <= b <= 0xDF then 2
    else if 0xE0 <= b <= 0xEF then 3
    else if 0xF0 <= b <= 0xF4 then 4
    else 0
  }

  /** The range allowed for the second byte depends on the lead byte. */
  predicate SecondOk(lead: Byte, b: Byte)
  {
    if lead == 0xE0 then 0xA0 <= b <= 0xBF
    else if lead == 0xED then 0x80 <= b <= 0x9F
    else if lead == 0xF0 then 0x90 <= b <= 0xBF
    else if lead == 0xF4 then 0x80 <= b <= 0x8F
    else 0x80 <= b <= 0xBF
  }

  predicate Continuation(b: Byte)
  {
    0x80 <= b <= 0xBF
  }

  /** Number of leading bytes of `s` that are a prefix of some well-formed
      character: the maximal subpart when it falls short of `Width(s[0])`. */
  function PrefixLen(s: seq<Byte>): (k: nat)
    requires |s| > 0
    ensures k <= |s| && k <= Width(s[0])
    ensures Width(s[0]) > 0 ==> k >= 1
  {
    var w := Width(s[0]);
    if w == 0 then 0
    else if w == 1 || |s| < 2 || !SecondOk(s[0], s[1]) then 1
    else if w == 2 || |s| < 3 || !Continuation(s[2]) then 2
    else if w == 3 || |s| < 4 || !Continuation(s[3]) then 3
    else 4
  }

  /** `s` begins with one complete well-formed character. */
  predicate StartsWithChar(s: seq<Byte>)
  {
    |s| > 0 && Width(s[0]) > 0 && PrefixLen(s) == Width(s[0])
  }

  /** `s` is well-formed UTF-8: what `String::from_utf8` accepts. */
  predicate Valid(s: seq<Byte>)
    decreases |s|
  {
    s == [] || (StartsWithChar(s) && Valid(s[Width(s[0])..]))
  }

  /** The bytes of a Rust `String`. */
  type Utf8String = s: seq<Byte> | Valid(s) witness []

  /** U+FFFD REPLACEMENT CHARACTER. */
  const Replacement: seq<Byte> := [0xEF, 0xBF, 0xBD]

  /** `String::from_utf8`. */
  function FromUtf8(s: seq<Byte>): Option<Utf8String>
  {
    if Valid(s) then Some(s) else None
  }

  /** Prepending one complete character keeps a string well-formed. */
  lemma ValidCons(c: seq<Byte>, rest: seq<Byte>)
    requires StartsWithChar(c) && |c| == Width(c[0])
    requires Valid(rest)
    ensures Valid(c + rest)
  {
    var t := c + rest;
    assert t[0] == c[0];
    assert |c| >= 2 ==> t[1] == c[1];
    assert |c| >= 3 ==> t[2] == c[2];
    assert |c| >= 4 ==> t[3] == c[3];
    assert PrefixLen(t) == PrefixLen(c);
    assert t[Width(t[0])..] == rest;
  }

  /** Well-formedness is checked character by character: two well-formed
      strings stay well-formed when joined. */
  lemma {:induction false} ValidConcat(a: seq<Byte>, b: seq<Byte>)
    requires Valid(a) && Valid(b)
    ensures Valid(a + b)
    decreases |a|
  {
    if a != [] {
      var w := Width(a[0]);
      FirstChar(a);
      ValidConcat(a[w..], b);
      ValidCons(a[..w], a[w..] + b);
      SplitJoin(a, w, b);
    } else {
      assert a + b == b;
    }
  }

  lemma SplitJoin(a: seq<Byte>, w: nat, b: seq<Byte>)
    requires w <= |a|
    ensures a[..w] + (a[w..] + b) == a + b
  {
    assert a == a[..w] + a[w..];
  }

  /** The first character of a string that starts with one, on its own. */
  lemma FirstChar(a: seq<Byte>)
    requires StartsWithChar(a)
    ensures StartsWithChar(a[..Width(a[0])]) && |a[..Width(a[0])]| == Width(a[0])
  {
    var c := a[..Width(a[0])];
    assert c[0] == a[0];
    assert |c| >= 2 ==> c[1] == a[1];
    assert |c| >= 3 ==> c[2] == a[2];
    assert |c| >= 4 ==> c[3] == a[3];
    assert PrefixLen(c) == PrefixLen(a);
  }

  /** The strict decoder rejects every string whose first character does
      not encode a Unicode scalar value, whatever follows: a stray
      continuation byte (80..BF), an overlong two-byte lead (C0, C1), a lead
      beyond U+10FFFF (F5..FF), an overlong three- or four-byte form (E0 80..9F,
      F0 80..8F), an encoded surrogate (ED A0..BF) and a value above
      U+10FFFF (F4 90..BF). */
  lemma FromUtf8RejectsNonScalars(b: Byte, b1: Byte, t: seq<Byte>)
    ensures (0x80 <= b <= 0xC1 || b >= 0xF5) ==> FromUtf8([b] + t) == None
    ensures 0x80 <= b1 <= 0x9F ==> FromUtf8([0xE0, b1] + t) == None
    ensures 0x80 <= b1 <= 0x8F ==> FromUtf8([0xF0, b1] + t) == None
    ensures 0xA0 <= b1 ==> FromUtf8([0xED, b1] + t) == None
    ensures 0x90 <= b1 ==> FromUtf8([0xF4, b1] + t) == None
  {
    assert ([b] + t)[0] == b;
    assert ([0xE0, b1] + t)[1] == b1;
    assert ([0xF0, b1] + t)[1] == b1;
    assert ([0xED, b1] + t)[1] == b1;
    assert ([0xF4, b1] + t)[1] == b1;
  }

  /** A string that ends inside its first character is rejected. */
  lemma FromUtf8RejectsTruncated(s: seq<Byte>)
    requires 0 < |s| < Width(s[0])
    ensures FromUtf8(s) == None
  {
  }

  /** Every encoding of a scalar value is accepted in front of any
      well-formed rest, and returned unchanged: a two-byte form with lead
      C2..DF, a three-byte form with lead E0..EF and a four-byte form with
      lead F0..F4, each with the second-byte range its lead allows. */
  lemma FromUtf8AcceptsScalars(b0: Byte, b1: Byte, b2: Byte, b3: Byte, t: Utf8String)
    requires Continuation(b2) && Continuation(b3)
    ensures 0xC2 <= b0 <= 0xDF && Continuation(b1) ==> FromUtf8([b0, b1] + t) == Some([b0, b1] + t)
    ensures 0xE0 <= b0 <= 0xEF && SecondOk(b0, b1) ==> FromUtf8([b0, b1, b2] + t) == Some([b0, b1, b2] + t)
    ensures 0xF0 <= b0 <= 0xF4 && SecondOk(b0, b1) ==> FromUtf8([b0, b1, b2, b3] + t) == Some([b0, b1, b2, b3] + t)
  {
    if 0xC2 <= b0 <= 0xDF && Continuation(b1) {
      ValidCons([b0, b1], t);
    }
    if 0xE0 <= b0 <= 0xEF && SecondOk(b0, b1) {
      ValidCons([b0, b1, b2], t);
    }
    if 0xF0 <= b0 <= 0xF4 && SecondOk(b0, b1) {
      ValidCons([b0, b1, b2, b3], t);
    }
  }

  /** `String::from_utf8_lossy`: complete characters are copied, every
      maximal ill-formed subpart (at least one byte) becomes U+FFFD. */
  function Lossy(s: seq<Byte>): (r: seq<Byte>)
    ensures Valid(r)
    decreases |s|
  {
    if s == [] then []
    else if StartsWithChar(s) then
      var w := Width(s[0]);
      ValidCons(s[..w], Lossy(s[w..]));
      s[..w] + Lossy(s[w..])
    else
      var k := if PrefixLen(s) == 0 then 1 else PrefixLen(s);
      ValidCons(Replacement, Lossy(s[k..]));
      Replacement + Lossy(s[k..])
  }

  /** The lossy decoder is the identity on well-formed input. */
  lemma {:induction false} LossyOfValid(s: seq<Byte>)
    requires Valid(s)
    ensures Lossy(s) == s
    decreases |s|
  {
    if s != [] {
      var w := Width(s[0]);
      LossyOfValid(s[w..]);
      assert s[..w] + s[w..] == s;
    }
  }

  /** ... and only there: it changes exactly the ill-formed inputs. */
  lemma LossyChangesExactlyInvalid(s: seq<Byte>)
    ensures Lossy(s) == s <==> Valid(s)
  {
    if Valid(s) {
      LossyOfValid(s);
    }
  }

  /** Plain ASCII is well-formed UTF-8. */
  lemma {:induction false} AsciiIsValid(s: seq<Byte>)
    requires forall i :: 0 <= i < |s| ==> s[i] < 0x80
    ensures Valid(s)
    decreases |s|
  {
    if s != [] {
      AsciiIsValid(s[1..]);
    }
  }
}
