/**
 `extractSignature(pdf)`: find the first `/ByteRange [` declaration in a
 signed PDF, read its four integers, and return them with the bytes they
 say were signed and the signature held in the placeholder between the two
 signed spans.

 The result is `Ok` with the three values or `Err` with the kind and the
 message of the `SignPdfError` the source throws.
 */
module Extraction {
  import opened Bytes
  import opened Options
  import opened NodeBuffer
  import opened ByteRangePattern
  import opened Padding
  import opened Hex

  /** `SignPdfError.TYPE_INPUT` and `SignPdfError.TYPE_PARSE`. */
  datatype ErrorKind = TypeInput | TypeParse

  datatype Outcome =
    | Ok(byteRange: ByteRange, signature: seq<byte>, signedData: seq<byte>)
    | Err(kind: ErrorKind, message: string)

  const MarkerMissing: string := "Failed to locate ByteRange."
  const EndMissing: string := "Failed to locate the end of the ByteRange."
  const Unparsable: string := "Failed to parse the ByteRange."

  /** `p` is the first offset where the document holds `/ByteRange [`. */
  predicate IsFirstMarker(pdf: seq<byte>, p: nat) {
    OccursAt(pdf, Marker, p) && forall q :: 0 <= q < p ==> !OccursAt(pdf, Marker, q)
  }

  /** `e` is the offset of the first `]` at or after `p`. */
  predicate IsFirstCloseAfter(pdf: seq<byte>, p: nat, e: nat) {
    p <= e < |pdf| && pdf[e] == CloseBracket && forall q :: p <= q < e ==> pdf[q] != CloseBracket
  }

  /** The bytes the signature covers: the two spans the ByteRange names,
      each truncated to the document. */
  function SignedData(pdf: seq<byte>, br: ByteRange): (r: seq<byte>)
    ensures |r| <= br.length1 + br.length2
    ensures |r| <= 2 * |pdf|
    ensures br.start1 + br.length1 <= |pdf| && br.start2 + br.length2 <= |pdf| ==>
              r == pdf[br.start1..br.start1 + br.length1] + pdf[br.start2..br.start2 + br.length2]
    ensures var n := |pdf|;
            var a1 := Min(br.start1, n);
            var a2 := Min(br.start2, n);
            r == pdf[a1..Max(a1, Min(br.start1 + br.length1, n))] + pdf[a2..Max(a2, Min(br.start2 + br.length2, n))]
  {
    SliceNonNegative(pdf, br.start1, br.start1 + br.length1);
    SliceNonNegative(pdf, br.start2, br.start2 + br.length2);
    Slice(pdf, br.start1, br.start1 + br.length1) + Slice(pdf, br.start2, br.start2 + br.length2)
  }

  /** The placeholder: the bytes between the two spans, less the byte right
      after the first span and the byte right before the second (the `<` and
      `>` around the hexadecimal string in a signed document). */
  function SignatureRegion(pdf: seq<byte>, br: ByteRange): (r: seq<byte>)
    ensures |r| <= |pdf|
    ensures var lo := br.start1 + br.length1 + 1;
            lo <= br.start2 - 1 <= |pdf| ==> r == pdf[lo..br.start2 - 1]
  {
    Slice(pdf, br.start1 + br.length1 + 1, br.start2 - 1)
  }

  /** The signature bytes: the placeholder read as Latin-1 text, its trailing
      `"00"` pairs stripped, the rest decoded from hexadecimal. */
  function DecodeSignature(region: seq<byte>): (sig: seq<byte>)
    ensures 2 * |sig| <= |region|
  {
    HexDecode(StripZeroPairs(Latin1Decode(region)))
  }

  /** Where the declaration lies: the first marker and the first `]` after
      it, or which of the two is missing. */
  datatype Location = NoMarker | NoEnd | Delimited(pos: nat, end: nat)

  /** The two `indexOf` calls that delimit the declaration. */
  function Locate(pdf: seq<byte>): (l: Location)
    ensures l.Delimited? ==> IsFirstMarker(pdf, l.pos) && IsFirstCloseAfter(pdf, l.pos, l.end)
  {
    var pos := IndexOf(pdf, Marker, 0);
    if pos == -1 then NoMarker
    else
      var end := IndexOf(pdf, [CloseBracket], pos);
      if end == -1 then NoEnd
      else
        OccursAtSingle(pdf, CloseBracket, end);
        assert forall q :: pos <= q < end ==> pdf[q] != CloseBracket by {
          forall q | pos <= q < end
            ensures pdf[q] != CloseBracket
          {
            OccursAtSingle(pdf, CloseBracket, q);
          }
        }
        Delimited(pos, end)
  }

  /** `extractSignature(pdf)`. */
  function ExtractSignature(pdf: seq<byte>): (r: Outcome)
    ensures r.Err? ==> r.kind == TypeParse
    ensures r.Ok? ==>
              && |r.signedData| <= r.byteRange.length1 + r.byteRange.length2
              && |r.signedData| <= 2 * |pdf|
              && 2 * |r.signature| <= |pdf|
  {
    Proceed(pdf, Locate(pdf))
  }

  /** What follows the two `indexOf` calls: one of the two early errors, or
      the declaration between the ends handed on to be parsed. */
  function Proceed(pdf: seq<byte>, l: Location): (r: Outcome)
    requires l.Delimited? ==> l.pos <= l.end < |pdf|
    ensures r.Err? ==> r.kind == TypeParse
    ensures r.Ok? ==>
              && |r.signedData| <= r.byteRange.length1 + r.byteRange.length2
              && |r.signedData| <= 2 * |pdf|
              && 2 * |r.signature| <= |pdf|
  {
    match l
    case NoMarker => Err(TypeParse, MarkerMissing)
    case NoEnd => Err(TypeParse, EndMissing)
    case Delimited(pos, end) => ParseBetween(pdf, pos, end)
  }

  /** The declaration `pdf.slice(pos, end + 1)`, parsed. */
  function ParseBetween(pdf: seq<byte>, pos: nat, end: nat): (r: Outcome)
    requires pos <= end < |pdf|
  {
    ParseDeclaration(pdf, Slice(pdf, pos, end + 1))
  }

  /** The steps after the declaration has been delimited: match the pattern
      against it, then assemble the result from the four integers. */
  function ParseDeclaration(pdf: seq<byte>, declaration: seq<byte>): (r: Outcome)
    ensures r.Err? ==> r == Err(TypeParse, Unparsable)
    ensures r.Ok? ==>
              && |r.signedData| <= r.byteRange.length1 + r.byteRange.length2
              && |r.signedData| <= 2 * |pdf|
              && 2 * |r.signature| <= |pdf|
  {
    match Search(declaration)
    case None => Err(TypeParse, Unparsable)
    case Some(m) => Assemble(pdf, Captures(m.pieces))
  }

  /** The result for a parsed ByteRange. */
  function Assemble(pdf: seq<byte>, br: ByteRange): (r: Outcome)
  {
    Ok(br, DecodeSignature(SignatureRegion(pdf, br)), SignedData(pdf, br))
  }

  // ---------------------------------------------------------------------
  // Locating the declaration

  /** Without the marker, extraction fails with "Failed to locate
      ByteRange.", and only then. */
  lemma ExtractMissingMarker(pdf: seq<byte>)
    ensures ExtractSignature(pdf) == Err(TypeParse, MarkerMissing) <==> forall p :: !OccursAt(pdf, Marker, p)
  {
  }

  /** A document has one first marker at most. */
  lemma FirstMarkerUnique(pdf: seq<byte>, p: nat, p': nat)
    requires IsFirstMarker(pdf, p) && IsFirstMarker(pdf, p')
    ensures p == p'
  {
  }

  /** A document has one first `]` after a given offset at most. */
  lemma FirstCloseUnique(pdf: seq<byte>, p: nat, e: nat, e': nat)
    requires IsFirstCloseAfter(pdf, p, e) && IsFirstCloseAfter(pdf, p, e')
    ensures e == e'
  {
  }

  /** Without a `]` after the first marker, extraction fails with "Failed to
      locate the end of the ByteRange.", and only then. */
  lemma ExtractMissingEnd(pdf: seq<byte>, p: nat)
    requires IsFirstMarker(pdf, p)
    ensures ExtractSignature(pdf) == Err(TypeParse, EndMissing) <==>
              forall q :: p <= q < |pdf| ==> pdf[q] != CloseBracket
  {
    assert IndexOf(pdf, Marker, 0) == p;
    forall q
      ensures OccursAt(pdf, [CloseBracket], q) <==> 0 <= q < |pdf| && pdf[q] == CloseBracket
    {
      OccursAtSingle(pdf, CloseBracket, q);
    }
  }

  /** `Locate` finds the first marker and the first `]` after it. */
  lemma LocateFindsBothEnds(pdf: seq<byte>, p: nat, e: nat)
    requires IsFirstMarker(pdf, p) && IsFirstCloseAfter(pdf, p, e)
    ensures Locate(pdf) == Delimited(p, e)
  {
    assert IndexOf(pdf, Marker, 0) == p;
    OccursAtSingle(pdf, CloseBracket, e);
    var l := Locate(pdf);
    FirstMarkerUnique(pdf, p, l.pos);
    FirstCloseUnique(pdf, p, e, l.end);
  }

  /** Once both ends are found, the result is `ParseDeclaration` of the
      document and the declaration from the marker through that `]`: the
      pattern sees nothing else of the document. */
  lemma ExtractDelimited(pdf: seq<byte>, p: nat, e: nat)
    requires IsFirstMarker(pdf, p) && IsFirstCloseAfter(pdf, p, e)
    ensures ExtractSignature(pdf) == ParseDeclaration(pdf, pdf[p..e + 1])
  {
    LocateFindsBothEnds(pdf, p, e);
    ProceedDelimited(pdf, p, e);
  }

  /** Past `Locate`, the declaration parsed is `pdf.slice(p, e + 1)`, which
      for two ends inside the document is the bytes from `p` through `e`. */
  lemma ProceedDelimited(pdf: seq<byte>, p: nat, e: nat)
    requires p <= e < |pdf|
    ensures Slice(pdf, p, e + 1) == pdf[p..e + 1]
    ensures Proceed(pdf, Delimited(p, e)) == ParseDeclaration(pdf, pdf[p..e + 1])
  {
    assert Proceed(pdf, Delimited(p, e)) == ParseBetween(pdf, p, e);
  }

  /** With the declaration delimited, extraction fails exactly when the
      pattern matches nowhere in it, and then with "Failed to parse the
      ByteRange.". */
  lemma ExtractUnparsable(pdf: seq<byte>, p: nat, e: nat)
    requires IsFirstMarker(pdf, p) && IsFirstCloseAfter(pdf, p, e)
    ensures ExtractSignature(pdf).Err? <==> !MatchesSomewhere(pdf[p..e + 1])
    ensures ExtractSignature(pdf).Err? ==> ExtractSignature(pdf) == Err(TypeParse, Unparsable)
  {
    ExtractDelimited(pdf, p, e);
    SearchNoneIffNoMatch(pdf[p..e + 1]);
  }

  /** The declaration text holds its only `]` at its end. */
  lemma DeclarationCloses(pdf: seq<byte>, p: nat, e: nat)
    requires IsFirstCloseAfter(pdf, p, e)
    ensures var t := pdf[p..e + 1];
            |t| > 0 && forall k :: 0 <= k < |t| - 1 ==> t[k] != CloseBracket
  {
    var t := pdf[p..e + 1];
    forall k | 0 <= k < |t| - 1
      ensures t[k] != CloseBracket
    {
      assert t[k] == pdf[p + k];
    }
  }

  /** In such a declaration the pattern is found with the split it has. */
  lemma SearchFindsTheMatch(t: seq<byte>, j: nat, ps: seq<seq<byte>>)
    requires |t| > 0 && forall k :: 0 <= k < |t| - 1 ==> t[k] != CloseBracket
    requires MatchesAt(t, j, ps)
    ensures Search(t).Some? && Search(t).value.pieces == ps
  {
    SearchNoneIffNoMatch(t);
    var m := Search(t).value;
    MatchUniqueBeforeFirstClose(t, m.start, m.pieces, j, ps);
  }

  /** When the declaration matches, extraction succeeds with the four
      integers it spells, the spans they name and the signature between
      them. */
  lemma ExtractSucceeds(pdf: seq<byte>, p: nat, e: nat, j: nat, ps: seq<seq<byte>>)
    requires IsFirstMarker(pdf, p) && IsFirstCloseAfter(pdf, p, e)
    requires MatchesAt(pdf[p..e + 1], j, ps)
    ensures var br := Captures(ps);
            ExtractSignature(pdf) == Ok(br, DecodeSignature(SignatureRegion(pdf, br)), SignedData(pdf, br))
  {
    ExtractDelimited(pdf, p, e);
    DeclarationCloses(pdf, p, e);
    SearchFindsTheMatch(pdf[p..e + 1], j, ps);
  }

  /** The split of the declaration a signer writes for `br`: the four
      numerals separated by one space, then `pad` spaces before `]`. */
  function WrittenPieces(br: ByteRange, pad: nat): (ps: seq<seq<byte>>)
    ensures Fits(ps, Steps)
  {
    var ps := [Decimal(br.start1), [Space], Decimal(br.length1), [Space],
               Decimal(br.start2), [Space], Decimal(br.length2), seq(pad, _ => Space)];
    assert forall i :: 0 <= i < |ps| ==> |ps[i]| >= Steps[i].min && AllIn(ps[i], Steps[i].cls) by {
      forall i | 0 <= i < |ps|
        ensures |ps[i]| >= Steps[i].min && AllIn(ps[i], Steps[i].cls)
      {
        assert Steps[i].cls == if i % 2 == 0 then Digits else Spaces;
      }
    }
    ps
  }

  /** Writing a declaration and reading its captures back gives the range. */
  lemma WrittenPiecesCapture(br: ByteRange, pad: nat)
    ensures Captures(WrittenPieces(br, pad)) == br
  {
    DecimalRoundTrip(br.start1);
    DecimalRoundTrip(br.length1);
    DecimalRoundTrip(br.start2);
    DecimalRoundTrip(br.length2);
  }

  /** A spelled declaration placed after text without the marker is the
      one delimited by the first marker and the first `]` after it. */
  lemma SpelledDeclarationLocated(pdf: seq<byte>, pre: seq<byte>, post: seq<byte>, ps: seq<seq<byte>>)
    requires Fits(ps, Steps)
    requires pdf == pre + Spelling(ps) + post
    requires forall q :: 0 <= q < |pre| ==> !OccursAt(pdf, Marker, q)
    ensures IsFirstMarker(pdf, |pre|)
    ensures IsFirstCloseAfter(pdf, |pre|, |pre| + |Spelling(ps)| - 1)
    ensures pdf[|pre|..|pre| + |Spelling(ps)|] == Spelling(ps)
  {
    var sp := Spelling(ps);
    var p := |pre|;
    var e := p + |sp| - 1;
    SpellingShape(ps);
    assert pdf[p..e + 1] == sp;
    assert pdf[p..p + |Marker|] == sp[..|Marker|];
    forall q | p <= q < e
      ensures pdf[q] != CloseBracket
    {
      assert pdf[q] == sp[q - p];
    }
    assert pdf[e] == sp[|sp| - 1];
  }

  /** A document whose first marker starts a declaration written for `br`
      yields exactly `br`, the spans it names and the signature between
      them. */
  lemma ExtractWrittenDeclaration(pdf: seq<byte>, pre: seq<byte>, post: seq<byte>, br: ByteRange, pad: nat)
    requires pdf == pre + Spelling(WrittenPieces(br, pad)) + post
    requires forall q :: 0 <= q < |pre| ==> !OccursAt(pdf, Marker, q)
    ensures ExtractSignature(pdf) == Ok(br, DecodeSignature(SignatureRegion(pdf, br)), SignedData(pdf, br))
  {
    var ps := WrittenPieces(br, pad);
    var p := |pre|;
    var e := p + |Spelling(ps)| - 1;
    SpelledDeclarationLocated(pdf, pre, post, ps);
    assert MatchesAt(pdf[p..e + 1], 0, ps);
    ExtractSucceeds(pdf, p, e, 0, ps);
    WrittenPiecesCapture(br, pad);
  }

  // ---------------------------------------------------------------------
  // The signed data and the placeholder

  /** With a second span starting at 0 the placeholder's end offset is -1,
      which `slice` reads as one byte before the end of the document. */
  lemma SignatureRegionWrapsAround(pdf: seq<byte>, br: ByteRange)
    requires br.start2 == 0
    ensures var lo := br.start1 + br.length1 + 1;
            SignatureRegion(pdf, br) == if lo < |pdf| - 1 then pdf[lo..|pdf| - 1] else []
  {
    SliceNegativeEnd(pdf, br.start1 + br.length1 + 1, -1);
  }

  // ---------------------------------------------------------------------
  // The signature

  /** A placeholder holding the encoded signature followed by `"00"`
      padding decodes to the signature without its trailing zero bytes:
      the strip cannot tell padding from a signature that ends in 0x00. */
  lemma PaddedSignature(region: seq<byte>, sig: seq<byte>, n: nat)
    requires Latin1Decode(region) == HexEncode(sig) + ZeroPairs(n)
    ensures DecodeSignature(region) == TrimZeroBytes(sig)
  {
    var t := TrimZeroBytes(sig);
    var pad := HexEncode(sig[|t|..]) + ZeroPairs(n);
    TrimmedEncoding(sig, n);
    HexEncodeEndsWithZeroPair(t);
    StripOfPadded(HexEncode(t), pad);
    HexRoundTrip(t);
  }

  /** The encoding of a signature followed by padding is the encoding of the
      signature without its trailing zero bytes, followed by `"00"` pairs
      only: those of the zero bytes, then the padding. */
  lemma TrimmedEncoding(sig: seq<byte>, n: nat)
    ensures var t := TrimZeroBytes(sig);
            var pad := HexEncode(sig[|t|..]) + ZeroPairs(n);
            && HexEncode(sig) + ZeroPairs(n) == HexEncode(t) + pad
            && IsZeroPairs(pad)
  {
    var t := TrimZeroBytes(sig);
    var zs := sig[|t|..];
    assert sig == t + zs;
    HexEncodeConcat(t, zs);
    HexEncodeOfZeros(zs);
    ZeroPairsConcat(HexEncode(zs), ZeroPairs(n));
  }

  /** A signature that does not end in a zero byte comes back unchanged,
      whatever the amount of padding, none included. */
  lemma PaddedSignatureRoundTrip(region: seq<byte>, sig: seq<byte>, n: nat)
    requires |sig| == 0 || sig[|sig| - 1] != 0
    requires Latin1Decode(region) == HexEncode(sig) + ZeroPairs(n)
    ensures DecodeSignature(region) == sig
  {
    PaddedSignature(region, sig, n);
  }

  /** A placeholder that holds nothing but `"00"` pairs gives an empty
      signature. */
  lemma AllPaddingSignature(region: seq<byte>)
    requires IsZeroPairs(Latin1Decode(region))
    ensures DecodeSignature(region) == []
  {
    StripOfPadded([], Latin1Decode(region));
    assert [] + Latin1Decode(region) == Latin1Decode(region);
  }

}
