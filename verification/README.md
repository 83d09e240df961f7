# Signature extraction from a signed PDF, modelled in Dafny

This project models `extractSignature` from node-signpdf. The function takes the
bytes of a signed PDF and returns three things:

- the four numbers of its `/ByteRange [...]` declaration;
- the signature bytes held in the placeholder between the two signed spans;
- the signed data, which is the two spans joined together.

The model follows the code step by step:

1. Find the first `/ByteRange [` (`Buffer#indexOf`).
2. Find the first `]` at or after it.
3. Match the regular expression `/\/ByteRange \[(\d+) +(\d+) +(\d+) +(\d+) *\]/` anywhere in that stretch.
4. Cut the two signed spans with Node's clamping `Buffer#slice`.
5. Cut the placeholder. Node's `slice` counts a negative end back from the end of the buffer.
6. Read the placeholder as Latin-1 and strip trailing `"00"` pairs (`replace(/(?:00)*$/, '')`).
7. Decode the rest as hexadecimal the way `Buffer.from(s, 'hex')` does. It stops at the first pair that is not two hex digits.

The three failures carry the kind `TYPE_PARSE` and the code's own messages:
"Failed to locate ByteRange.", "Failed to locate the end of the ByteRange." and
"Failed to parse the ByteRange.".

Modules, one per concern:

- `Options`: an option type.
- `Bytes`: bytes, ASCII classes and Latin-1 conversion.
- `NodeBuffer`: `indexOf` and `slice` on a Node `Buffer`.
- `ByteRangePattern`: the regular expression.
  - A declarative reference `MatchesAt`: the text at a position spells the marker, four runs of digits separated by runs of spaces, optional spaces and `]`.
  - An executable greedy matcher `MatchAt` and a leftmost search `Search`, with soundness and completeness proved against the reference.
- `Hex`: Node's hexadecimal decoder, a reference encoder, and how zero bytes encode.
- `Padding`: the `(?:00)*$` removal and the `"00"` padding itself.
- `Extraction`: the function itself and its end-to-end properties.

Two details of the code decide what the model accepts:

- The pattern separates the numbers by the space byte 0x20 only. A tab, a line break or any other whitespace byte does not separate them.
- `toString()` at line 36 decodes UTF-8. See "Left out" for why matching on the bytes gives the same result for this pattern.

## Model

| member | source | states |
|---|---|---|
| Extraction.ExtractSignature | src/helpers/extractSignature.js:12-65 | Every failure is of kind `TYPE_PARSE`. On success, the signed data is no longer than the two declared lengths together and than twice the document, and the signature is at most half the document's length |
| Extraction.Locate | src/helpers/extractSignature.js:20-34 | When both ends are found, the start is the first occurrence of `/ByteRange [` and the end is the first `]` at or after it |
| NodeBuffer.IndexOf | src/helpers/extractSignature.js:20 | The result is the first occurrence at or after `from`. It is -1 exactly when there is none |
| NodeBuffer.OccursAtSingle | src/helpers/extractSignature.js:28 | Looking for the one-byte needle `]` is looking for that byte |
| Extraction.ExtractMissingMarker | src/helpers/extractSignature.js:20-26 | The result is "Failed to locate ByteRange." exactly when the document has no `/ByteRange [` |
| Extraction.ExtractMissingEnd | src/helpers/extractSignature.js:28-34 | Given the first marker, the result is "Failed to locate the end of the ByteRange." exactly when no `]` follows it |
| Extraction.Proceed | src/helpers/extractSignature.js:20-43 | The steps after the two `indexOf` calls. Every failure is of kind `TYPE_PARSE`. On success, the signed data is no longer than the two declared lengths together and than twice the document, and the signature is at most half the document's length |
| Extraction.LocateFindsBothEnds | src/helpers/extractSignature.js:20-34 | Given the first marker and the first `]` after it, those are the two positions the code works with |
| Extraction.ExtractDelimited | src/helpers/extractSignature.js:36-37 | With both ends found, the result is `Extraction.ParseDeclaration` of the document and the declaration from the marker through that `]`, inclusive. The pattern sees nothing else of the document; the signature and signed data are cut from the whole document |
| Extraction.ProceedDelimited | src/helpers/extractSignature.js:36 | `pdf.slice(byteRangePos, byteRangeEnd + 1)`, with both ends inside the document, is exactly the bytes from the marker through the `]`. That stretch is what the pattern is matched against (through `Extraction.ParseBetween`) |
| Extraction.ParseDeclaration | src/helpers/extractSignature.js:37-64 | Every failure is "Failed to parse the ByteRange." of kind `TYPE_PARSE`. On success, the signed data is no longer than the two declared lengths together and than twice the document, and the signature is at most half the document's length |
| Extraction.ExtractUnparsable | src/helpers/extractSignature.js:36-43 | Given both ends, extraction fails exactly when the pattern matches nowhere in the declaration, and then with "Failed to parse the ByteRange." |
| Extraction.DeclarationCloses | src/helpers/extractSignature.js:28-36 | The declaration ends with `]` and holds no other `]` |
| Extraction.ExtractSucceeds | src/helpers/extractSignature.js:36-64 | When the pattern matches the declaration with some pieces, extraction returns those pieces' numbers with the signature and signed data cut at them. The numbers are `ByteRangePattern.Captures` (`matches.slice(1, 5).map(Number)`), and the result is built by `Extraction.Assemble` |
| Extraction.SpelledDeclarationLocated | src/helpers/extractSignature.js:20-36 | A declaration written after a prefix that has no marker is the one both `indexOf` calls find, and its `]` is the end |
| Extraction.WrittenPiecesCapture | src/helpers/extractSignature.js:64 | Reading back the numerals of a ByteRange written in shortest decimal form gives that ByteRange |
| Extraction.ExtractWrittenDeclaration | src/helpers/extractSignature.js:20-64 | A document carrying a written declaration of any ByteRange, preceded by no other marker, yields exactly that ByteRange with its signature and signed data |
| ByteRangePattern.RunEnd | src/helpers/extractSignature.js:37 | The greedy end of a `\d+` or ` +` run: every byte before it is in the class and the byte at it is not |
| ByteRangePattern.RunEndExact | src/helpers/extractSignature.js:37 | A run of class bytes followed by a byte outside the class ends exactly there |
| ByteRangePattern.StepsDeterministic | src/helpers/extractSignature.js:37 | Consecutive repetitions of the pattern use different classes, so a greedy run never takes bytes the next step needs |
| ByteRangePattern.MatchStepsSound | src/helpers/extractSignature.js:37 | Every greedy match of the runs fits the pattern's repetitions and is followed by `]` |
| ByteRangePattern.MatchStepsComplete | src/helpers/extractSignature.js:37 | Every way of spelling the runs followed by `]` is found by the greedy matcher, with the same pieces |
| ByteRangePattern.MatchAtSound | src/helpers/extractSignature.js:37 | A match found by the greedy matcher at a position satisfies the declarative pattern there |
| ByteRangePattern.MatchAtComplete | src/helpers/extractSignature.js:37 | A declarative match at a position is found by the greedy matcher with the same pieces |
| ByteRangePattern.MatchAtIff | src/helpers/extractSignature.js:37 | The greedy matcher `ByteRangePattern.MatchAt` returns some pieces at a position exactly when the declarative pattern holds there with those pieces |
| ByteRangePattern.Leftmost | src/helpers/extractSignature.js:37 | The scan behind `exec` over the offsets from `from` to `last`: a result is the first offset where the test succeeds, with that test's value, and `None` means it succeeds at no offset in the range |
| ByteRangePattern.Search | src/helpers/extractSignature.js:37-38 | `exec` on the declaration: a reported match satisfies the declarative pattern at its start offset with its pieces. The `None` case is stated by `ByteRangePattern.SearchNoneIffNoMatch` |
| ByteRangePattern.SearchNoneIffNoMatch | src/helpers/extractSignature.js:37-38 | `exec` gives `null` exactly when the pattern matches at no position |
| ByteRangePattern.SearchFindsLeftmost | src/helpers/extractSignature.js:37 | The match `exec` returns satisfies the pattern at its start, and the pattern matches at no earlier position |
| ByteRangePattern.MatchUniqueBeforeFirstClose | src/helpers/extractSignature.js:28-37 | In a declaration whose only `]` is its last byte, the pattern matches at most one position with one set of pieces |
| ByteRangePattern.SpellingShape | src/helpers/extractSignature.js:37 | A match has `/` as its first byte and `]` as its last, and neither byte occurs anywhere between |
| ByteRangePattern.DecimalRoundTrip | src/helpers/extractSignature.js:47-52 | `parseInt`, modelled by `ByteRangePattern.DecimalValue`, reads the shortest decimal numeral of n as n |
| ByteRangePattern.DecimalLeadingZero | src/helpers/extractSignature.js:47-52 | A leading `0` does not change the value `ByteRangePattern.DecimalValue` (`parseInt`) reads |
| NodeBuffer.AdjustOffset | src/helpers/extractSignature.js:46-58 | A slice offset is clamped into the buffer's bounds |
| NodeBuffer.Slice | src/helpers/extractSignature.js:46-58 | In-bounds offsets cut exactly that stretch. A non-negative end at or before the start gives an empty slice. The result is never longer than the buffer |
| NodeBuffer.SliceNonNegative | src/helpers/extractSignature.js:46-53 | With non-negative offsets, both are clamped to the buffer's length, and the slice is no longer than end minus start |
| NodeBuffer.SliceNegativeEnd | src/helpers/extractSignature.js:56-59 | A negative end counts back from the end of the buffer |
| Extraction.SignedData | src/helpers/extractSignature.js:45-54 | The signed data is the two declared spans joined, each clamped to the document. It is exact when both lie inside |
| Extraction.SignatureRegion | src/helpers/extractSignature.js:56-59 | The placeholder is the bytes from one past the end of the first span to one before the second span |
| Extraction.SignatureRegionWrapsAround | src/helpers/extractSignature.js:56-59 | When the second span starts at 0, the placeholder's end is -1 and it runs to one byte before the end of the document |
| Bytes.Latin1Decode | src/helpers/extractSignature.js:59 | `toString('binary')` gives one character per byte |
| Bytes.Latin1RoundTrip | src/helpers/extractSignature.js:59-62 | Reading bytes as Latin-1 and writing them back gives the same bytes |
| Bytes.Latin1RoundTripString | src/helpers/extractSignature.js:62 | A Latin-1 string written as bytes and read back is the same string |
| Padding.PadStart | src/helpers/extractSignature.js:60 | The leftmost position at which the rest of the string is whole `"00"` pairs |
| Padding.StripZeroPairs | src/helpers/extractSignature.js:60 | The result is a prefix of the input, and what was removed is whole `"00"` pairs |
| Padding.PadStartUnique | src/helpers/extractSignature.js:60 | Any leftmost all-pairs suffix position is the one the removal uses |
| Padding.StripLeavesNoZeroPair | src/helpers/extractSignature.js:60 | After the removal the string does not end in `"00"` |
| Padding.StripOfPadded | src/helpers/extractSignature.js:60 | Stripping a string that does not end in `"00"`, followed by any number of `"00"` pairs, gives back that string |
| Padding.StripIdempotent | src/helpers/extractSignature.js:60 | Stripping twice is stripping once |
| Padding.StripDropsEvenShareOfTrailingZeros | src/helpers/extractSignature.js:60 | The removal takes an even number of characters: all the trailing `0`s when they are even in number, all but one when they are odd |
| Padding.TrailingZeros | src/helpers/extractSignature.js:60 | The count of trailing `0` characters: they are all `0` and the character before them is not |
| Hex.DecodePairsFrom | src/helpers/extractSignature.js:62 | Decodes the consecutive valid hex pairs from a pair index and stops before the first invalid or incomplete one |
| Hex.HexDecode | src/helpers/extractSignature.js:62 | `Buffer.from(s, 'hex')`: byte i is the value of the i-th pair. Every pair before the last decoded one is valid, and the pair after it is not |
| Hex.HexRoundTrip | src/helpers/extractSignature.js:62 | Decoding the hexadecimal encoding of any bytes gives those bytes |
| Extraction.DecodeSignature | src/helpers/extractSignature.js:59-62 | The signature is at most half as long as its placeholder |
| Extraction.PaddedSignature | src/helpers/extractSignature.js:56-62 | For a placeholder holding the hex of a signature followed by `"00"` padding, the extracted signature is that signature with its trailing zero bytes removed |
| Extraction.PaddedSignatureRoundTrip | src/helpers/extractSignature.js:56-62 | When the signature does not end in a zero byte, it is extracted exactly, whatever the padding |
| Extraction.AllPaddingSignature | src/helpers/extractSignature.js:60-62 | A placeholder holding only `"00"` pairs yields an empty signature |

## Left out

- The `instanceof Buffer` check and its "PDF expected as Buffer." error (lines 13-18). The input is a byte sequence by type, so this error never occurs. The kind `TypeInput` is kept in the error kinds for completeness.
- `SignPdfError` is a separate class and not part of this model. An error is represented by its kind and message.
- `toString()` on the declaration (line 36) decodes UTF-8. The model matches the pattern on the bytes instead. The two agree for this pattern:
  - The pattern uses only ASCII characters.
  - UTF-8 decoding keeps every byte below 0x80 as that character, in the same order.
  - It never folds such a byte into a multi-byte character or a replacement character.
- The four numbers are unbounded naturals. `parseInt` and `Number` lose precision above 2^53, and that rounding is not modelled.
- The signature is returned as bytes rather than as the Latin-1 string `toString('binary')` produces (line 62). `Bytes.Latin1RoundTrip` and `Bytes.Latin1RoundTripString` show the two forms carry the same content.
- Memory allocation by `Buffer.concat` is not modelled. The concatenation is sequence concatenation.
- Cryptographic checking of the signature, and documents with several signatures, are outside this function.
- A signature whose last bytes are 0x00 loses them, because their hex `"00"` pairs are stripped with the padding. `Extraction.PaddedSignature` states this behaviour as the code has it. Trailing 0x00 bytes of a signature cannot be told apart from padding.
- The hexadecimal encoder `Hex.HexEncode`, the declaration writer `Extraction.WrittenPieces`, the shortest numeral `ByteRangePattern.Decimal`, the padding `Padding.ZeroPairs` and the Latin-1 writer `Bytes.Latin1Encode` are reference definitions. Each serves a round-trip lemma and describes what a signer writes into the document. The modelled code does not call them.
