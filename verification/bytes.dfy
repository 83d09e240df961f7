/**
 Octets of a Node `Buffer`, the few ASCII codes the extractor looks for,
 and the Latin-1 ("binary") view that turns each byte into the character
 with the same code.
 */
module Bytes {

  /** One octet of the document buffer. */
  type byte = b: int | 0 <= b < 256

  const Slash: byte := 0x2F         // '/'
  const Space: byte := 0x20         // ' '
  const OpenBracket: byte := 0x5B   // '['
  const CloseBracket: byte := 0x5D  // ']'
  const DigitZero: byte := 0x30     // '0'

  /** The ASCII bytes of the literal `/ByteRange [`. */
  const Marker: seq<byte> :=
    [Slash, 0x42, 0x79, 0x74, 0x65, 0x52, 0x61, 0x6E, 0x67, 0x65, Space, OpenBracket]

  /** `\d` of a JavaScript regular expression without the `u` flag: only `0`-`9`. */
  predicate IsDigit(b: byte) {
    0x30 <= b <= 0x39
  }

  /** The pattern separates its integers by the space character only. */
  predicate IsSpace(b: byte) {
    b == Space
  }

  function DigitValue(b: byte): (d: nat)
    requires IsDigit(b)
    ensures d < 10
  {
    b - 0x30
  }

  /** `buf.toString('binary')`: byte `b` becomes the character with code `b`. */
  function Latin1Decode(bs: seq<byte>): (s: string)
    ensures |s| == |bs|
  {
    seq(|bs|, i requires 0 <= i < |bs| => bs[i] as char)
  }

  predicate IsLatin1(s: string) {
    forall i :: 0 <= i < |s| ==> s[i] as int < 256
  }

  /** `Buffer.from(s, 'binary')`: the inverse of `Latin1Decode` on one-byte characters. */
  function Latin1Encode(s: string): (bs: seq<byte>)
    requires IsLatin1(s)
    ensures |bs| == |s|
  {
    seq(|s|, i requires 0 <= i < |s| => s[i] as int)
  }

  /** The Latin-1 view loses nothing: the string the source builds from a
      byte region, and the string it returns as the signature, carry exactly
      the bytes they were made from. */
  lemma Latin1RoundTrip(bs: seq<byte>)
    ensures IsLatin1(Latin1Decode(bs))
    ensures Latin1Encode(Latin1Decode(bs)) == bs
  {
  }

  lemma Latin1RoundTripString(s: string)
    requires IsLatin1(s)
    ensures Latin1Decode(Latin1Encode(s)) == s
  {
  }

}
