/**
 Node's `Buffer.from(s, 'hex')`: consecutive pairs of hexadecimal digits
 become one byte each; decoding stops at the first pair holding a character
 that is not a hexadecimal digit, and a trailing lone digit is dropped.
 `HexEncode` is the lower-case encoder a signer uses to fill the placeholder.
 */
module Hex {
  import opened Bytes
  import opened Padding

  predicate IsHexDigit(c: char) {
    '0' <= c <= '9' || 'a' <= c <= 'f' || 'A' <= c <= 'F'
  }

  function HexValue(c: char): (v: nat)
    requires IsHexDigit(c)
    ensures v < 16
  {
    if '0' <= c <= '9' then c as int - '0' as int
    else if 'a' <= c <= 'f' then c as int - 'a' as int + 10
    else c as int - 'A' as int + 10
  }

  /** The pair of characters at `2*i` and `2*i + 1` exists and is hexadecimal. */
  predicate ValidPair(s: string, i: nat) {
    2 * i + 1 < |s| && IsHexDigit(s[2 * i]) && IsHexDigit(s[2 * i + 1])
  }

  function PairValue(hi: char, lo: char): byte
    requires IsHexDigit(hi) && IsHexDigit(lo)
  {
    16 * HexValue(hi) + HexValue(lo)
  }

  /** Node's decoding loop from pair `i` on: pairs are decoded while they
      exist and are valid. */
  function DecodePairsFrom(s: string, i: nat): (r: seq<byte>)
    decreases |s| - i
    ensures forall j :: i <= j < i + |r| ==> ValidPair(s, j) && r[j - i] == PairValue(s[2 * j], s[2 * j + 1])
    ensures !ValidPair(s, i + |r|)
  {
    if !ValidPair(s, i) then []
    else [PairValue(s[2 * i], s[2 * i + 1])] + DecodePairsFrom(s, i + 1)
  }

  /** `Buffer.from(s, 'hex')`. Byte `i` of the result is the value of pair
      `i`; the result stops at the first missing or invalid pair, so it has
      at most half as many bytes as `s` has characters. */
  function HexDecode(s: string): (r: seq<byte>)
    ensures 2 * |r| <= |s|
    ensures forall i :: 0 <= i < |r| ==> ValidPair(s, i) && r[i] == PairValue(s[2 * i], s[2 * i + 1])
    ensures !ValidPair(s, |r|)
  {
    var r := DecodePairsFrom(s, 0);
    assert |r| > 0 ==> ValidPair(s, |r| - 1);
    r
  }

  function HexChar(v: nat): (c: char)
    requires v < 16
    ensures IsHexDigit(c) && HexValue(c) == v
  {
    if v < 10 then ('0' as int + v) as char else ('a' as int + v - 10) as char
  }

  /** Two lower-case hexadecimal digits per byte, most significant first. */
  function HexEncode(bs: seq<byte>): (s: string)
    ensures |s| == 2 * |bs|
  {
    if |bs| == 0 then [] else [HexChar(bs[0] / 16), HexChar(bs[0] % 16)] + HexEncode(bs[1..])
  }

  /** Character `2 * k` and `2 * k + 1` of an encoding are the digits of byte `k`. */
  lemma {:induction false} HexEncodeAt(bs: seq<byte>, k: nat)
    requires k < |bs|
    ensures var s := HexEncode(bs);
            s[2 * k] == HexChar(bs[k] / 16) && s[2 * k + 1] == HexChar(bs[k] % 16)
  {
    if k > 0 {
      HexEncodeAt(bs[1..], k - 1);
    }
  }

  /** Decoding what the encoder wrote gives the bytes back. */
  lemma HexRoundTrip(bs: seq<byte>)
    ensures HexDecode(HexEncode(bs)) == bs
  {
    var s := HexEncode(bs);
    var r := HexDecode(s);
    forall k | 0 <= k < |bs|
      ensures ValidPair(s, k) && PairValue(s[2 * k], s[2 * k + 1]) == bs[k]
    {
      HexEncodeAt(bs, k);
    }
    assert |r| == |bs|;
  }

  /** Encoding works byte by byte. */
  lemma {:induction false} HexEncodeConcat(a: seq<byte>, b: seq<byte>)
    ensures HexEncode(a + b) == HexEncode(a) + HexEncode(b)
  {
    if |a| > 0 {
      var pair := [HexChar(a[0] / 16), HexChar(a[0] % 16)];
      assert (a + b)[0] == a[0];
      assert (a + b)[1..] == a[1..] + b;
      HexEncodeConcat(a[1..], b);
      calc {
        HexEncode(a + b);
        pair + HexEncode(a[1..] + b);
        pair + (HexEncode(a[1..]) + HexEncode(b));
        (pair + HexEncode(a[1..])) + HexEncode(b);
      }
    } else {
      assert a + b == b;
    }
  }

  /** The last two characters of an encoding are those of the last byte. */
  lemma HexEncodeLast(bs: seq<byte>)
    requires |bs| > 0
    ensures var s := HexEncode(bs);
            s[|s| - 2] == HexChar(bs[|bs| - 1] / 16) && s[|s| - 1] == HexChar(bs[|bs| - 1] % 16)
  {
    HexEncodeAt(bs, |bs| - 1);
  }

  /** `bs` without its trailing zero bytes. */
  function TrimZeroBytes(bs: seq<byte>): (r: seq<byte>)
    ensures |r| <= |bs| && r == bs[..|r|]
    ensures |r| == 0 || r[|r| - 1] != 0
    ensures forall k :: |r| <= k < |bs| ==> bs[k] == 0
  {
    if |bs| > 0 && bs[|bs| - 1] == 0 then TrimZeroBytes(bs[..|bs| - 1]) else bs
  }

  /** Zero bytes encode as `"00"` pairs. */
  lemma {:induction false} HexEncodeOfZeros(bs: seq<byte>)
    requires forall k :: 0 <= k < |bs| ==> bs[k] == 0
    ensures IsZeroPairs(HexEncode(bs))
  {
    if |bs| > 0 {
      HexEncodeOfZeros(bs[1..]);
      assert HexChar(0) == '0';
    }
  }

  /** An encoding ends in `"00"` only if the last byte is zero. */
  lemma HexEncodeEndsWithZeroPair(bs: seq<byte>)
    requires |bs| == 0 || bs[|bs| - 1] != 0
    ensures !EndsWithZeroPair(HexEncode(bs))
  {
    if |bs| > 0 {
      HexEncodeLast(bs);
    }
  }
}
