# The bundled QR encoder, verified

The wallet carries its own copy of a QR code encoder in `libqrencode/`: it turns text or bytes into
a matrix of dark and light modules. This project models that encoder for full-size QR codes, in the
form the code has (loops over arrays and lists, objects that change), proves each piece against a
specification, and proves about the specifications what the encoder is for. The main results:

* **End to end.** A reader that sees nothing but dark and light modules - it takes the version from
  the width, reads either copy of the format information, takes the mask off, walks the zig-zag,
  packs the bits, takes the blocks apart and parses segments up to the terminator - recovers version,
  level, mask pattern and all segments from every symbol that the encoder returns
  (`QRCodes.SymbolReadable`). For strings see `Encoders.StringReadable`, for structured append over up
  to 16 symbols `Encoders.StructuredReadable`.
* **When there is a symbol.** A symbol is returned exactly for an encodable message
  (`QRCodes.EncodeMask`), and for all messages and requested versions it is proved what that means
  (`VersionExact.FinalExists`): not quite that some version holds the message, unless version 40 or a
  version that holds it is requested (`VersionExact.RequestFits`).
* **Which version.** The library promises the least version when none is requested
  (`libqrencode/qrencode.h:408-409`), and a version above the requested one only for a message that is
  too large for that (`libqrencode/qrencode.h:59-61`). Neither holds always, and it is proved exactly
  when they do: for every message and request as inequalities between lengths, estimates and
  capacities (`VersionExact.LeastExactly`, `VersionExact.RequestExactly`); as one or two windows of
  lengths for messages with short Kanji entries (`VersionExact.LeastShort`,
  `VersionExact.RequestShort`); in plain arithmetic for one entry of each mode
  (`VersionExact.OneEntryLeast`, `VersionExact.OneEntryRequest`, `VersionExact.KanjiLeast`,
  `VersionExact.KanjiRequest`); and for the parts of a structured split
  (`StructuredAppend.PartVersion`).
* **Reed-Solomon.** The log tables, the generator polynomial built in place and the shift register
  on logarithms compute parity in GF(2^8) modulo 0x11d; two different blocks give codewords at least
  nroots + 1 bytes apart (`RSEncoder.MinimumDistance`), so a symbol stands damage of half the parity
  in every block (`RawCode.DamageTolerance`).
* **Segments and estimates.** Encoding is inverted by a parser; it is proved for entries of any length
  when the estimate of a length is exact (`Estimate.EstimateAgainstLength`); and version selection ends
  in a version that holds the message encoded for it (`VersionChoice.FinalVersionFits`).
* **The walk.** The placement state machine visits every free module exactly once
  (`FrameFillers.PathComplete`, `FrameFillers.PathDistinct`), and in every version there is exactly
  one free module for each bit (`FreeModules.PathCapacity`).
* **What a scanner sees.** Every finished symbol of every version shows the function patterns in the
  right colours, both copies of a BCH-coded format word, and along the zig-zag the bits of the
  interleaved codes, inverted where the drawn picture of the mask pattern marks them
  (`QRCodes.SymbolDrawn`, with `FunctionPatterns.FinderLines` and its neighbours,
  `MaskPatterns.MaskedPicture`, `RawCode.InterleaveInColumns`, `FrameFillers.PathOrder`). The bits of
  every segment are spelled out in `SegmentLayout`.
* **Splitting strings.** What the greedy splitter chooses, in encoded bits: digits before an 8-bit
  character become a numeric segment if and only if that takes no more bits than the digits as bytes
  (`SplittingChoices.DigitsBeforeByte`, and the laws beside it for the other tests).
* **Masking.** Run-length scoring equals a penalty defined on modules, and the mask chosen is the
  first of least penalty (`Masks.Mask`, `QRCodes.SymbolBest`).
* **The semaphore hand-off** of `src/CryptoNoteWrapper/SemaphoreUtils.cpp` keeps exactly one token in
  every interleaving of any number of callers and jobs (`SemaphoreHandOff.RunSafe`); every run goes on
  until all callers have finished (`SemaphoreHandOff.RunCompletes`).

Where the code does less than its documentation or one may expect, the model follows the code, with
an example and the exact condition:

* Kanji second bytes below 0x40 are accepted but do not read back (`RoundTrip.MessageFaithful`,
  `Encoders.LowKanjiLost`).
* The first estimate is always made with the length fields of version 1, and where it leads to a
  larger version than the requested one, that version is taken. Long messages are charged many
  headers for it. So, with version 0, close to the capacity of version 40 no version is found although
  version 40 holds the message (`VersionExact.BytesLost`: 2953 bytes at level L); and the estimate may
  skip version 26, where version 27 has wider length fields, also when version 26 is requested
  (`VersionExact.DigitsLarger`: 3283 digits; `StructuredAppend.DigitsOutgrow`: at levels L and M every
  filled part of digits that are split for version 26). In Kanji mode the estimate counts bytes
  against a limit for characters, so that above 1024 bytes a version may be larger than needed, or than
  requested (`VersionChoice.LongKanjiNotLeast`).
* For that last reason a structured split may fail although everything fits
  (`StructuredAppend.KanjiSplits`, `StructuredAppend.SplitFailsWhen`, `StructuredAppend.KanjiSplitFails`).

## Layout

| file | content |
|---|---|
| `Arith.dfy` | quotients and products |
| `GF256.dfy`, `RSPoly.dfy`, `RSEncoder.dfy` | the field, polynomials over it, and what the shift register computes |
| `RSCode.dfy` | tables, generator polynomial, encoder and codec cache, in place |
| `QRSpec.dfy` | capacity, block and format tables |
| `BitStreams.dfy`, `Segments.dfy`, `RoundTrip.dfy`, `SegmentLayout.dfy` | bit streams, segments, the parser, and the bits of a segment in literal form |
| `Estimate.dfy`, `VersionChoice.dfy`, `VersionExact.dfy` | estimates, version selection and padding, and when a version is found and is the least one |
| `Inputs.dfy` | the input object |
| `RawCode.dfy`, `Raw.dfy` | blocks and interleaving |
| `FrameFillers.dfy`, `Frames.dfy`, `FreeModules.dfy` | the walk, drawing the function patterns, and the number of free modules |
| `FunctionPatterns.dfy` | the colours of the function patterns in frames and symbols |
| `MaskPatterns.dfy`, `Penalties.dfy`, `PenaltyRules.dfy`, `Masks.dfy` | masks, format information, penalties and their rules, best mask |
| `Placement.dfy`, `QRCodes.dfy` | layout of a symbol, the reader, and the encoder |
| `StructuredAppend.dfy`, `Splitting.dfy`, `SplittingChoices.dfy`, `Encoders.dfy` | structured append, string splitting and its choices, and the entry points |
| `SemaphoreHandOff.dfy` | the token hand-off |

`dafny verify dfyconfig.toml` checks everything.

Bytes are 8-bit vectors, bit streams are sequences of booleans, and lists (`QRinput`'s entries, the
codec list) are sequences held in fields. Functions are the specifications; a method of the source is
a method here, and its contract ties it to them.

## Model

| member | source | states |
|---|---|---|
| `GF256.PowDistinct` | libqrencode/rscode.c:150-162 | The first 255 powers of the generator x are distinct (this is what makes the log table well defined). |
| `GF256.PowPeriod` | libqrencode/rscode.c:150-168 | x has order dividing 255: exponents may be reduced modulo 255; in particular the shift register comes back to 1. |
| `GF256.LogExists` | libqrencode/rscode.c:150-161 | Every non-zero byte is a power of x, with exactly one exponent below 255: the log table covers all non-zero bytes. |
| `GF256.MulAssoc` | libqrencode/rscode.c:200-204 | Carry-less multiplication modulo 0x11d is associative. |
| `GF256.MulComm` | libqrencode/rscode.c:200-204 | It is commutative. |
| `GF256.MulAddLeft` | libqrencode/rscode.c:200-204 | It distributes over XOR. |
| `GF256.MulNonzero` | libqrencode/rscode.c:316-318 | A product of non-zero bytes is not zero: there are no zero divisors. |
| `RSCode.LogMul` | libqrencode/rscode.c:67-73 | Adding logarithms modulo 255 and taking the antilogarithm is carry-less multiplication modulo 0x11d, for all non-zero factors. |
| `RSCode.ModNN` | libqrencode/rscode.c:67-73 | The shift-and-add loop terminates and computes x mod 255 for every x >= 0. |
| `RSCode.ShiftRegisterIsXTime` | libqrencode/rscode.c:156-159 | One step of the 32-bit shift register is multiplication by x in the field. |
| `RSCode.GenerateTables` | libqrencode/rscode.c:150-168 | The loop fills the antilog table with the powers of x and the log table with their exponents (mutually inverse, sentinel 255 for zero), and ends with the register at 1, so the primitivity check passes. |
| `RSCode.TableMul` | libqrencode/rscode.c:200-202 | The table look-up expression, with no test for the sentinel, is the product of its two non-zero operands. |
| `RSPoly.EvalPolyMul` | libqrencode/rscode.c:190-206 | The value of a product of polynomials is the product of the values. |
| `RSPoly.GeneratorCoef` | libqrencode/rscode.c:190-206 | The list of coefficients of the product of (x - alpha^i), i < n, is the recursively defined coefficient function. |
| `RSPoly.GeneratorRoot` | libqrencode/rscode.c:190-206 | The generator polynomial vanishes at alpha^0 .. alpha^(n-1). |
| `RSPoly.CoefRatio` | libqrencode/rscode.c:190-206 | The functional equation between g(alpha x) and g(x), coefficient by coefficient. |
| `RSPoly.CoefNonzero` | libqrencode/rscode.c:190-210 | For 0 <= nroots <= 254 no coefficient of the generator polynomial is zero: the unguarded log additions never meet the sentinel. |
| `RSCode.FormGenerator` | libqrencode/rscode.c:190-206 | The nested in-place loops build the coefficients of the monic product of (x - alpha^i). |
| `RSCode.MulLinear` | libqrencode/rscode.c:193-206 | One round of the outer loop multiplies the polynomial in place by one linear factor, from the top coefficient down. |
| `RSCode.ToIndexForm` | libqrencode/rscode.c:207-210 | The last loop replaces each coefficient by its logarithm, and none of them is the sentinel. |
| `RSCode.RS.constructor` | libqrencode/rscode.c:170-210 | The control block holds the tables and the logarithms of the generator coefficients for its number of roots. |
| `RSCode.InitRSChar` | libqrencode/rscode.c:99-210 | A codec is built exactly if nroots and pad are not negative and nroots + pad is below 255, and it is valid. |
| `RSEncoder.CodewordMultiple` | libqrencode/rscode.c:301-327 | Data followed by the parity of the shift register is a multiple of the generator polynomial (the feedback bytes are the quotient), for every data block. |
| `RSEncoder.CodewordChecks` | libqrencode/rscode.c:301-327 | Every codeword evaluates to zero at alpha^0 .. alpha^(nroots-1). |
| `RSEncoder.Vandermonde` | libqrencode/rscode.c:301-327 | A sum of at most n terms with distinct locators that vanishes under the first n check equations has only zero terms: elimination of one term at a time. |
| `RSEncoder.ChecksWeight` | libqrencode/rscode.c:301-327 | A non-zero word of at most 255 bytes that passes the checks has at least nroots + 1 non-zero bytes. |
| `RSEncoder.MinimumDistance` | libqrencode/rscode.c:301-327 | Two different data blocks of equal length k, k + nroots <= 255, have codewords that differ in at least nroots + 1 bytes. |
| `RSEncoder.UniqueDecoding` | libqrencode/rscode.c:301-327 | At most one data block has a codeword within nroots / 2 byte errors of a received word. |
| `RSEncoder.ParityUnique` | libqrencode/rscode.c:301-327 | The parity is the only choice of nroots bytes that makes data and parity pass the checks. |
| `RSEncoder.ParityLinear` | libqrencode/rscode.c:301-327 | The parity of the XOR of two blocks is the XOR of their parities. |
| `RSCode.RS.Encode` | libqrencode/rscode.c:301-327 | The encoding loop leaves exactly the parity of the block in its nroots bytes and touches no other byte of the parity buffer. |
| `RSCode.RS.FeedbackStep` | libqrencode/rscode.c:308-325 | One round of the loop: feedback by logarithm, in-place XOR of the inner coefficients, shift, and the last coefficient. |
| `RSCode.RS.AddMultiple` | libqrencode/rscode.c:316-318 | The inner loop adds the product of the feedback with the inner generator coefficients. |
| `RSCode.Cache.InitRS` | libqrencode/rscode.c:212-240 | A look-up returns a codec that is valid for its key, keeps keys unique, and pushes a new codec only when there is none; it fails exactly for rejected parameters. |
| `RSCode.CodecUnique` | libqrencode/rscode.c:212-240 | Two valid codecs with the same key have the same tables and the same generator: a cached codec is equal to a fresh one. |
| `RSCode.Cache.Free` | libqrencode/rscode.c:251-268 | After freeing, the cache is empty. |
| `QRSpec.WidthFormula` | libqrencode/qrspec.c:57-99 | The width of version v is 4v + 17. |
| `QRSpec.LevelsOrdered` | libqrencode/qrspec.c:57-108 | In every version the data capacity falls from level L to M, Q and H, and is never zero; there are fewer than eight remainder bits. |
| `QRSpec.DataLengthMonotone` | libqrencode/qrspec.c:101-104 | Data capacity does not decrease from version to version. |
| `QRSpec.MinVersionMeaning` | libqrencode/qrspec.c:111-122 | A version v holds size bytes exactly when the minimum version exists and is at most v. |
| `QRSpec.GetMinimumVersion` | libqrencode/qrspec.c:111-122 | The loop finds that minimum, or none. |
| `QRSpec.FormatRoundTrip` | libqrencode/qrspec.c:379-391 | No two formats share a word: reading the word of a mask and a level gives them back. |
| `QRSpec.FormatWordsAreCodes` | libqrencode/qrspec.c:378-391 | Every word of the format table is a code word of the BCH code with generator 0x537 XOR 0x5412, with the level bits 01, 00, 11, 10 for L, M, Q, H and the mask number on top. |
| `QRSpec.EccSpecExact` | libqrencode/qrspec.c:193-259 | For every version and level the block table divides data and parity exactly: the block counts times the block sizes are the capacities, every block has at most 255 bytes, and its number of parity bytes is one of the thirteen that there are. |
| `BitStreams.NumRoundTrip` | libqrencode/bitstream.c:66-94 | A number below 2^n written with n bits reads back. |
| `BitStreams.ByteRoundTrip` | libqrencode/bitstream.c:96-126 | The eight bits of a byte read back to it. |
| `BitStreams.PackRoundTrip` | libqrencode/bitstream.c:192-231 | Packing whole bytes and taking the bits again is the identity. |
| `BitStreams.UnpackRoundTrip` | libqrencode/bitstream.c:192-231 | Taking the bits of bytes and packing them is the identity, whatever fewer than eight bits follow. |
| `BitStreams.NewFromNum` | libqrencode/bitstream.c:66-94 | The loop with the moving mask writes the low bits of the number, most significant first. |
| `BitStreams.NewFromBytes` | libqrencode/bitstream.c:96-126 | The nested loops write the bits of all bytes in order. |
| `BitStreams.BitStream.Append` | libqrencode/bitstream.c:128-158 | Appending concatenates. |
| `BitStreams.BitStream.AppendNum` | libqrencode/bitstream.c:160-174 | Appending a number appends its bits. |
| `BitStreams.BitStream.AppendBytes` | libqrencode/bitstream.c:176-190 | Appending bytes appends their bits. |
| `BitStreams.BitStream.ToByte` | libqrencode/bitstream.c:192-231 | Packs eight bits to a byte; a short last group is shifted as the code does. |
| `Segments.HeadTailValid` | libqrencode/qrinput.c:1063-1069 | Cutting a too long entry at the maximum of its mode gives two valid entries with the same bytes; the first one fits a segment, the second one is shorter. |
| `RoundTrip.DigitsRoundTrip` | libqrencode/qrinput.c:410-459 | A reader of digit groups inverts the numeric payload. |
| `RoundTrip.AnRoundTrip` | libqrencode/qrinput.c:523-568 | A reader of character pairs inverts the alphanumeric payload. |
| `RoundTrip.BytesRoundTrip` | libqrencode/qrinput.c:593-624 | A reader of bytes inverts the 8-bit payload. |
| `RoundTrip.KanjiRoundTrip` | libqrencode/qrinput.c:675-718 | A reader of 13-bit codes gives each Kanji character back, except that a second byte below 0x40 comes back 0x40 higher. |
| `RoundTrip.CanonSame` | libqrencode/qrinput.c:647-663 | An entry reads back unchanged exactly when all its Kanji second bytes are at least 0x40 (and its header fields are between 1 and 16). |
| `RoundTrip.ChunkRoundTrip` | libqrencode/qrinput.c:410-759 | A reader of mode indicator, length field and payload inverts the encoding of one segment of any mode. |
| `RoundTrip.ChunksJoin` | libqrencode/qrinput.c:1063-1080 | The segments of an entry have its mode, fit their length fields, and together hold exactly its bytes. |
| `RoundTrip.MessageRead` | libqrencode/qrinput.c:1053-1117 | A reader that goes on to the terminator gets exactly the segments of all entries, including those cut by recursion, and leaves exactly the padding. |
| `RoundTrip.MessageFaithful` | libqrencode/qrinput.c:1053-1117 | It gets them unchanged if and only if every Kanji second byte is at least 0x40 (and header fields are between 1 and 16). |
| `Inputs.CheckModeNum` | libqrencode/qrinput.c:363-373 | Accepts exactly the digits. |
| `Inputs.CheckModeAn` | libqrencode/qrinput.c:482-492 | Accepts exactly the characters of the alphanumeric table. |
| `Inputs.CheckModeKanji` | libqrencode/qrinput.c:647-663 | Accepts exactly the even strings whose pairs lie in the two code ranges. |
| `Inputs.CheckEntry` | libqrencode/qrinput.c:864-890 | Accepts exactly the non-empty data that is valid for its mode; for a structured-append header any non-empty data. |
| `Inputs.EncodeModeNum` | libqrencode/qrinput.c:410-459 | The loop over groups of three digits writes the numeric segment. |
| `Inputs.EncodeModeAn` | libqrencode/qrinput.c:523-568 | The loop over pairs writes the alphanumeric segment. |
| `Inputs.EncodeMode8` | libqrencode/qrinput.c:593-624 | Writes the 8-bit segment, whose bits and widths SegmentLayout.SegmentBits spells out. |
| `Inputs.EncodeModeKanji` | libqrencode/qrinput.c:675-718 | The loop over byte pairs writes the Kanji segment. |
| `Inputs.EncodeModeStructure` | libqrencode/qrinput.c:734-759 | Writes the structured-append header, with the C wrap-around of field value zero. |
| `SegmentLayout.ModeBits` | libqrencode/qrspec.h:171-178 | The mode indicators are 0001, 0010, 0100, 1000 and 0011. |
| `SegmentLayout.SegmentBits` | libqrencode/qrinput.c:410-718 | For every mode and version: the literal mode bits, the number of characters in 10, 12 or 14 bits (numeric), 9, 11 or 13 (alphanumeric), 8 or 16 (bytes), 8, 10 or 12 (Kanji) for versions up to 9, up to 26 and above, and the payload. |
| `SegmentLayout.HeaderBits` | libqrencode/qrinput.c:734-759 | A structured-append header is 0011, the number of the symbol less one, their count less one, and the parity. |
| `SegmentLayout.ThreeDigits` | libqrencode/qrinput.c:433-441 | Three digits take ten bits, as a decimal number. |
| `SegmentLayout.LastDigits` | libqrencode/qrinput.c:443-452 | Two remaining digits take seven bits, and one takes four. |
| `SegmentLayout.Digits` | libqrencode/qrinput.c:363-373 | Exactly the ten digit characters are numeric data. |
| `SegmentLayout.Alphabet` | libqrencode/qrinput.c:465-474 | The value of an alphanumeric character is its place in the alphabet of 45 characters, spelled out; all others have none. |
| `SegmentLayout.CharacterRead` | libqrencode/qrinput.c:465-474 | The value of the character that a reader takes for a value is that value, for all 45. |
| `SegmentLayout.CharacterPairs` | libqrencode/qrinput.c:547-561 | A pair of characters is 45 a + b in eleven bits, a single one at the end takes six. |
| `SegmentLayout.ByteNumber` | libqrencode/qrinput.c:593-624 | The bits of a byte are those of its number, most significant first. |
| `SegmentLayout.BytesInOrder` | libqrencode/qrinput.c:593-624 | Bytes follow each other in order, eight bits each. |
| `SegmentLayout.KanjiRowColumn` | libqrencode/qrinput.c:699-711 | The code of a Kanji character is 192 times its row of the code table plus its column, with the rows 0x81 to 0x9f and 0xe0 to 0xeb in succession. |
| `SegmentLayout.KanjiBounds` | libqrencode/qrinput.c:647-663 | The first and the last character of both ranges are accepted and the ones next to them are not; their codes, and those of two characters between, are literal. |
| `SegmentLayout.KanjiGroups` | libqrencode/qrinput.c:699-711 | Each character takes thirteen bits. |
| `Inputs.EncodeBitStream` | libqrencode/qrinput.c:1053-1117 | The recursion writes the segments of the entry, one after the other. |
| `Estimate.ChunkLength` | libqrencode/qrinput.c:903-950 | The length of one encoded segment is mode indicator, length field and estimated payload. |
| `Estimate.EstimateExact` | libqrencode/qrinput.c:903-950 | For an entry of one segment the estimate is never too low, and it is exact if and only if the entry is not Kanji or has at most 2^l bytes. |
| `Estimate.EntryLength` | libqrencode/qrinput.c:1053-1117 | The length of an entry written as any number of segments, in closed form: payload, one header for every segment, and what alphanumeric pairs that are torn apart cost. |
| `Estimate.EstimateAgainstLength` | libqrencode/qrinput.c:939-947 | For entries of any length: the estimate is exact if and only if the groups of 2^l bytes that it counts are as many as the segments that are written, and no alphanumeric pair is torn apart; otherwise it is too high for Kanji, and too low for the other modes. |
| `Estimate.LengthOfCodeAdjoint` | libqrencode/qrinput.c:1002-1042 | n bytes (even in Kanji mode) are at most the computed length exactly when one segment may announce them and header and estimated payload fit the bits; also for negative payloads, with truncating division. |
| `Inputs.QRInput.Append` | libqrencode/qrinput.c:222-234 | Appends exactly the entries that pass the check; the list stays one of checked entries, unless a header does not have three bytes. |
| `Inputs.QRInput.EstimateBitStreamSize` | libqrencode/qrinput.c:958-970 | The sum of the estimates. |
| `Inputs.QRInput.EstimateVersion` | libqrencode/qrinput.c:977-993 | The loop terminates with the fixpoint of estimate and minimum version. |
| `Inputs.QRInput.CreateBitStream` | libqrencode/qrinput.c:1127-1141 | Encodes every entry for the current version, and returns the total length. |
| `Inputs.QRInput.ConvertData` | libqrencode/qrinput.c:1154-1179 | The loop terminates; it ends in the final version with all streams encoded for it, or fails exactly for a message that is not encodable (see VersionExact.FinalExists). |
| `Inputs.QRInput.MergeBitStream` | libqrencode/qrinput.c:1355-1390 | The streams of all entries for the final version, in order; none exactly for a message that is not encodable. |
| `VersionChoice.FinalVersionFits` | libqrencode/qrinput.c:1154-1179 | For any entries, the final version is at least the requested one and holds the message as encoded for that same version. |
| `VersionChoice.FinalVersionLeast` | libqrencode/qrinput.c:977-993 | For any requested version and entries within their smallest segment, the final version is the least one from the requested one on that holds the message as encoded for it, and there is none exactly when no version does. |
| `VersionChoice.LongKanjiNotLeast` | libqrencode/qrinput.c:943-946 | 528 Kanji characters get version 21 although they fit version 20, with no version requested and also when version 20 is. |
| `VersionChoice.FinalVersionAgain` | libqrencode/qrinput.c:1154-1179 | Encoding an input again, at the version it was left with, gives the same version. |
| `VersionExact.AllBounds` | libqrencode/qrinput.c:903-970 | All estimates and all encoded lengths of a message, for whatever versions, are within a factor of two of its payload and smallest headers. |
| `VersionExact.AllAdmitted` | libqrencode/qrinput.c:903-970 | A message that is estimated to fit a version, with length fields no narrower than those of that version, does fit it when it is encoded. |
| `VersionExact.EstimateHolds` | libqrencode/qrinput.c:977-993 | Whatever version the estimation ends with, even one below an earlier estimate, holds the message as encoded for it. |
| `VersionExact.LargestFits` | libqrencode/qrinput.c:1154-1179 | A message that fits some version fits version 40, although its length is not monotone in the version. |
| `VersionExact.FinalExists` | libqrencode/qrinput.c:1154-1179 | For every message and requested version: a version is found if and only if the message, encoded for it, fits version 40, and either the estimates for versions 0 and 27 or the encoding for the requested version are within the capacity of version 40. |
| `VersionExact.RequestFits` | libqrencode/qrinput.c:1154-1179 | When version 40 is requested a version is found exactly if any version holds the message; and requesting a version that holds the message finds one. |
| `VersionExact.LeastExactly` | libqrencode/qrinput.c:1154-1179 | For every message and every requested version: the version found is the least one, from the request on, that holds the message (and none is found when none does) if and only if there is no version that holds the message while its capacity is below the deciding estimate (if the estimates ask for more than the request) or below the length for the requested version (if not). |
| `VersionExact.RequestExactly` | libqrencode/qrinput.c:1159-1162 | For every message and a requested version that holds it: the request is kept if and only if the estimates ask for no more, and otherwise the symbol has the version they ask for. |
| `VersionExact.LeastShort` | libqrencode/qrinput.c:977-993 | If Kanji entries have at most 256 bytes, it is the least one except exactly in two windows: the message fits version 26 but not with the wider fields of version 27 in as many bits, and its estimate for the smallest versions is above version 26; or it fits version 40 but is estimated above it with the groups of the smallest versions. |
| `VersionExact.RequestShort` | libqrencode/qrinput.c:1159-1162 | If Kanji entries have at most 256 bytes, a requested version that holds the message is exceeded only if it is 26, and exactly in the first of the two windows. |
| `VersionExact.OneEntryLeast` | libqrencode/qrinput.c:977-993 | For one numeric, alphanumeric or 8-bit entry the two windows in plain arithmetic: payload + 4 + l(26) <= capacity of 26 < payload + 4 + l(27), and payload + 4 + l(27) <= capacity of 40 < the length with the smallest fields. |
| `VersionExact.OneEntryRequest` | libqrencode/qrinput.c:1159-1162 | For one numeric, alphanumeric or 8-bit entry and a requested version that holds it: the symbol has version 27 if 26 is requested and its capacity is below payload + 4 + l(27), and otherwise the requested version. |
| `VersionExact.KanjiLeast` | libqrencode/qrinput.c:977-993 | For one Kanji entry: the least version is found except exactly above 1024 bytes where one segment fits a version up to 25 that two headers do not fit, where version 26 is just large enough, and where version 40 is but not with the smallest fields. |
| `VersionExact.KanjiRequest` | libqrencode/qrinput.c:1159-1162 | For one Kanji entry and a requested version that holds it: the request is exceeded exactly above 1024 bytes for a version up to 25 that two headers do not fit, and for version 26 if the wider field of version 27 does not fit. |
| `VersionExact.OneEntryExists` | libqrencode/qrinput.c:1154-1179 | For one numeric, alphanumeric or 8-bit entry, with version 0 requested: a version is found if and only if the payload with one smallest header for every 1024, 512 or 256 characters is within the capacity of version 40. |
| `VersionExact.KanjiExists` | libqrencode/qrinput.c:1154-1179 | For one Kanji entry: if and only if the payload with 12 bits for every 510 bytes is. |
| `VersionExact.BytesLost` | libqrencode/qrinput.c:1167-1171 | 2953 bytes, whatever they are, fit version 40-L, but with version 0 requested no version is found for them. |
| `VersionExact.DigitsLarger` | libqrencode/qrinput.c:977-993 | 3283 digits, whatever they are, fit version 26-L, but with version 0 requested they get version 27. |
| `VersionChoice.PaddingFills` | libqrencode/qrinput.c:1191-1244 | Padding brings the length to exactly eight bits per data codeword and begins with a terminator, or with fewer than four zeros at the very end: it adds no segment. |
| `VersionChoice.PaddingAlternates` | libqrencode/qrinput.c:1223-1228 | The whole bytes after the terminator are 0xEC and 0x11 in turn. |
| `Inputs.QRInput.AppendPaddingBit` | libqrencode/qrinput.c:1191-1244 | Appends that padding; fails exactly when the message is longer than the symbol. |
| `Inputs.QRInput.GetByteStream` | libqrencode/qrinput.c:1426-1439 | The data codewords of the final version; none exactly for a message that is not encodable: one that does not fit version 40, or that is over its capacity in the estimates for versions 0 or 27 and also when it is encoded for the requested version. |
| `Inputs.CodewordsRead` | libqrencode/qrinput.c:1426-1439 | The codewords fill the version exactly, and reading their bits gives the segments of the message and the padding. |
| `RawCode.InterleavingBijective` | libqrencode/qrencode.c:162-174 | The map from code number to position in the data codewords is a bijection with an explicit inverse, also when the blocks of the second type are one byte longer. |
| `RawCode.EccBijective` | libqrencode/qrencode.c:175-178 | The same for the parity codes. |
| `RawCode.BlocksPartition` | libqrencode/qrencode.c:72-109 | The blocks follow each other in the data: concatenated in order they are the data, and they have the lengths of their types. |
| `RawCode.InterleaveInColumns` | libqrencode/qrencode.c:162-183 | The codes are the columns of the data blocks, one after the other, each from the first block that has that column to the last, and then the columns of the parity of all blocks in the same way. |
| `RawCode.TurnOrder` | libqrencode/qrencode.c:167-174 | Of two data bytes the one in the earlier column of its block comes first, and in one column that of the earlier block. |
| `RawCode.DeinterleaveInverse` | libqrencode/qrencode.c:162-183 | Taking the codes apart again gives the data codewords. |
| `RawCode.ReceivedCodeword` | libqrencode/qrencode.c:162-183 | What a reader collects for a block is the codeword of that block: its data, then its parity. |
| `RawCode.DamageTolerance` | libqrencode/qrencode.c:162-183 | If in every block at most half as many codes are wrong as there are parity bytes, the received codes determine the data. |
| `Raw.QRRawCode.constructor` | libqrencode/qrencode.c:112-154 | Blocks and parity bytes are in place, and the codes to come are the interleaved data and parity. |
| `Raw.QRRawCode.InitBlocks` | libqrencode/qrencode.c:72-109 | Describes and encodes the blocks of both types in their consecutive places. |
| `Raw.QRRawCode.GetCode` | libqrencode/qrencode.c:162-183 | Each call emits the next code of the sequence that RawCode.InterleaveInColumns spells out; after the last one it returns zero. |
| `FrameFillers.MoveFollowsWalk` | libqrencode/qrencode.c:326-363 | One movement of the filler leads to the next step of the closed formula of the zig-zag walk, also across column 6, or off the symbol after the last step. |
| `FrameFillers.WalkInside` | libqrencode/qrencode.c:316-371 | Every step of the walk lies inside the symbol and not in column 6, and its number is recovered from its place. |
| `FrameFillers.PathComplete` | libqrencode/qrencode.c:316-371 | The walk visits exactly the free modules, for every width 4k + 17 and every reservation mask with column 6 and rows 0 to 8 of columns 4 and 5 reserved and the bottom right module free. |
| `FrameFillers.PathDistinct` | libqrencode/qrencode.c:316-371 | It visits no module twice. |
| `FrameFillers.PathSame` | libqrencode/qrencode.c:316-371 | The path depends on the reservations only: writing data while walking does not change it. |
| `FrameFillers.WalkOrder` | libqrencode/qrencode.c:316-371 | The walk takes column pairs from right to left, upwards in those whose right column is 3 or a multiple of four and downwards in the others, and in each row the right module first. |
| `FrameFillers.PathOrder` | libqrencode/qrencode.c:316-371 | The free modules are listed in that order of their columns and rows. |
| `FrameFillers.FrameFiller.Next` | libqrencode/qrencode.c:316-371 | Terminates, and returns the next free module of the walk, or none exactly when no free module is left. |
| `FrameFillers.FrameFiller.MoveOn` | libqrencode/qrencode.c:331-360 | The case analysis on side and direction computes the movement. |
| `FrameFillers.FrameFiller.constructor` | libqrencode/qrencode.c:299-314 | A new filler has the whole path ahead. |
| `Frames.NewFrame` | libqrencode/qrspec.c:522-546 | Returns no frame exactly for a version that does not exist, and otherwise the frame with all function patterns drawn; what they look like is stated by FunctionPatterns.FrameShows and the laws of that module. |
| `Frames.FrameOfOk` | libqrencode/qrspec.c:439-520 | The frame of every version meets the needs of the walk, and its format modules are reserved and light. |
| `Frames.PutRect` | libqrencode/qrspec.c:413-517 | Drawing a rectangular pattern changes exactly the modules of its rectangle. |
| `Frames.VersionWordsAreCodes` | libqrencode/qrspec.c:359-372 | Every word of the version table is the code word of its version in the BCH code with generator 0x1f25. |
| `FunctionPatterns.AlignmentSpacing` | libqrencode/qrspec.c:272-282 | The table puts version / 7 + 2 alignment positions at equal even distances that end seven modules from the border, as even as that allows, with the exception of version 32. |
| `FunctionPatterns.FrameShows` | libqrencode/qrspec.c:439-520 | Every reserved module of every frame has the colour of one picture: finder rings, separators, timing, alignment rings, version bits, the dark module, light format area. |
| `FunctionPatterns.FramePatterned` | libqrencode/qrspec.c:439-520 | So the frame of every version shows the function patterns of the version. |
| `FunctionPatterns.SymbolPatterned` | libqrencode/qrencode.c:502-534 | So does every finished symbol, whatever its data, level and mask pattern. |
| `FunctionPatterns.FinderRings` | libqrencode/qrspec.c:413-437 | Around each of the three corner centres the centre, ring 1 and ring 3 are dark, and ring 2 and the separator are light. |
| `FunctionPatterns.FinderLines` | libqrencode/qrspec.c:413-437 | The row and the column through each centre show a 1:1:3:1:1 pattern. |
| `FunctionPatterns.TimingModules` | libqrencode/qrspec.c:481-490 | Row 6 and column 6 alternate between the finder patterns, dark in even places. |
| `FunctionPatterns.DarkModule` | libqrencode/qrspec.c:516-517 | The module at column 8, row w - 8 is dark. |
| `FunctionPatterns.VersionModules` | libqrencode/qrspec.c:493-515 | From version 7 on, bit k of the version word is shown at column k / 3, row w - 11 + k % 3, and with the two exchanged. |
| `FunctionPatterns.AlignmentRings` | libqrencode/qrspec.c:284-348 | At every pair of alignment positions but the three corners the centre and the border are dark, with a light ring between. |
| `FreeModules.ReservedSize` | libqrencode/qrspec.c:439-520 | The number of modules that function patterns reserve, in closed form for every version. |
| `FreeModules.PathCapacity` | libqrencode/qrencode.c:502-521 | In every version the walk visits exactly 8 times the codewords plus the remainder bits: no bit is without a module, and no free module without a bit. |
| `MaskPatterns.MaskMaker` | libqrencode/mask.c:83-142 | The nested loops leave the masked frame, whose picture MaskPatterns.MaskedPicture gives, and count its dark modules. |
| `MaskPatterns.MarkedIs` | libqrencode/mask.c:100-142 | The condition of each pattern holds exactly at the modules that its tile, drawn as a picture of at most 6 by 6 modules, marks. |
| `MaskPatterns.MaskedPicture` | libqrencode/mask.c:83-142 | A masked frame differs in colour from the frame exactly at the free modules that the picture of the pattern marks. |
| `MaskPatterns.MaskedTwice` | libqrencode/mask.c:83-142 | Masking keeps reserved modules, and masking twice restores the frame. |
| `MaskPatterns.WriteFormatInformation` | libqrencode/mask.c:34-75 | The two loops write both copies of the format word, and return twice the number of its set bits. |
| `MaskPatterns.WithFormatAt` | libqrencode/mask.c:34-75 | Only the format modules change, and all of them are reserved afterwards. |
| `MaskPatterns.FormatRead` | libqrencode/mask.c:34-75 | From the colours of either copy a reader gets the mask pattern and the level. |
| `MaskPatterns.FormatModules` | libqrencode/mask.c:34-75 | At the fifteen places of each copy, listed by coordinates, the module is dark exactly if its bit of the format word is set. |
| `MaskPatterns.IncrementalCount` | libqrencode/mask.c:313-314 | Adding two for every set bit gives the number of dark modules of the finished frame if and only if the format modules start light. |
| `Penalties.RunCost` | libqrencode/mask.c:188-219 | The penalty of a run, with the test for 1:1:3:1:1 on run lengths, is what its modules earn by a definition on modules, everything outside of the symbol being light. |
| `Penalties.MatchIsFinder` | libqrencode/mask.c:200-213 | Where the run-length test succeeds, the modules show a 1:1:3:1:1 pattern next to four light units. |
| `Penalties.FinderIsMatch` | libqrencode/mask.c:200-213 | And where the modules show one, the run-length test succeeds. |
| `Penalties.CalcN1N3` | libqrencode/mask.c:188-219 | For the run lengths of any line the result is the N1 and N3 penalty of the line, defined on its modules. |
| `Penalties.CalcRunLength` | libqrencode/mask.c:244-272 | The run lengths alternate in colour, decode back to the row or column, and take at most width + 1 slots. |
| `Penalties.CalcN2` | libqrencode/mask.c:221-242 | N2 times the number of two-by-two blocks of one colour. |
| `Penalties.EvaluateSymbol` | libqrencode/mask.c:274-294 | The sum of the penalties of blocks, rows and columns. |
| `Masks.DarkRatioRounded` | libqrencode/mask.c:315 | The integer expression is the percentage of dark modules rounded to the nearest number. |
| `PenaltyRules.RunRule` | libqrencode/mask.c:188-219 | A line of n modules of one colour costs nothing below 5, and then 3 and one more for every further module. |
| `PenaltyRules.BorderRule` | libqrencode/mask.c:200-213 | A finder-like pattern that fills a line costs 40. |
| `PenaltyRules.MarginRule` | libqrencode/mask.c:200-213 | Between light runs of one to four modules and dark ones it costs 40 exactly if one of the two light runs has four. |
| `PenaltyRules.BlockRule` | libqrencode/mask.c:221-242 | A square of four modules costs 3 exactly if they have one colour. |
| `PenaltyRules.BalanceRule` | libqrencode/mask.c:315-316 | A percentage of dark modules that is 5 k to 5 k + 4 away from 50 costs 10 k. |
| `Masks.ScoreIsDemerit` | libqrencode/mask.c:311-319 | With light format modules, the score computed while writing is the penalty of the finished symbol. |
| `Masks.CandidateKeeps` | libqrencode/mask.c:164-180 | A masked symbol differs from the frame in data and format modules only, and has the same reservations. |
| `Masks.CandidateUnmasks` | libqrencode/mask.c:164-180 | Masking it again with its own pattern gives the data modules back. |
| `Masks.MakeMask` | libqrencode/mask.c:164-180 | Fails exactly for a pattern number outside of 0 to 7. |
| `Masks.Mask` | libqrencode/mask.c:296-330 | Always returns a symbol: the masked frame of least penalty, the first one among equals. |
| `Placement.LayoutValid` | libqrencode/qrencode.c:463-521 | Frame, path, blocks and remainder bits of every version and level fit together, with one free module for each bit. |
| `Placement.BitsOfSymbol` | libqrencode/qrencode.c:502-521 | Bit k of the symbol is bit 7 - k % 8 of code number k / 8, and the remainder bits are light. |
| `Placement.DataModules` | libqrencode/qrencode.c:502-534 | Every module on the path shows its bit, inverted exactly where the picture of the mask pattern marks it. |
| `Placement.ReadPlaced` | libqrencode/qrencode.c:502-534 | Bits written along the path are read back from the colours of the masked symbol with format information. |
| `Placement.ReadDataInverse` | libqrencode/qrencode.c:502-534 | A reader that unmasks, walks, packs and de-interleaves recovers the data codewords. |
| `Placement.DecodeInverse` | libqrencode/qrencode.c:463-545 | A reader that sees only dark and light modules recovers version, level, mask pattern and segments of every message that fits, for every mask pattern and from either copy of the format information. |
| `QRCodes.Write` | libqrencode/qrencode.c:507-509 | Writes the next free module and keeps the rest of the walk. |
| `QRCodes.WriteCode` | libqrencode/qrencode.c:504-511 | The eight bits of a code go to the next eight free modules, most significant first. |
| `QRCodes.Fill` | libqrencode/qrencode.c:502-521 | All codes and remainder bits are placed along the path; the walk does not run out. |
| `QRCodes.ApplyMask` | libqrencode/qrencode.c:523-534 | The three ways of masking; fails exactly for a pattern number above 7. |
| `QRCodes.EncodeMask` | libqrencode/qrencode.c:463-545 | Returns a symbol exactly when the message is encodable (VersionExact.FinalExists says when) and the pattern number is at most 7; the symbol is the one specified for message, level, requested version and mask. |
| `QRCodes.SymbolDrawn` | libqrencode/qrencode.c:463-545 | Every symbol that is returned for a mask other than -2 shows the function patterns of its version, both copies of the format word at their places, and along the path the masked bits of the codes. |
| `QRCodes.SymbolReadable` | libqrencode/qrencode.c:463-545 | End to end: the reader recovers version, level, mask pattern and segments from every symbol that is returned. |
| `QRCodes.SymbolFaithful` | libqrencode/qrencode.c:463-545 | The segments are exactly those of the message if and only if Kanji second bytes are at least 0x40 and header fields between 1 and 16. |
| `QRCodes.SymbolBest` | libqrencode/qrencode.c:523-534 | The symbol for mask -1 has the least penalty, defined on finished modules, of the eight symbols that the encoder makes of the same message for masks 0 to 7, and the lowest pattern number of those that have it. |
| `StructuredAppend.SplitKeeps` | libqrencode/qrinput.c:1608-1656 | Splitting keeps every byte, its mode and the order; every part fits into the room next to a 20-bit header. |
| `StructuredAppend.SplitSucceeds` | libqrencode/qrinput.c:1620-1629 | If every Kanji entry has at most 2^l bytes, a split never fails at an entry. |
| `StructuredAppend.SplitFailsWhen` | libqrencode/qrinput.c:1620-1629 | Exactly when it fails at an entry that the estimate has rejected: when all of the entry fits the free bits as one segment, so that the second half would be empty. |
| `StructuredAppend.KanjiSplits` | libqrencode/qrinput.c:1620-1629 | For one Kanji entry, with L the bytes that fit an empty symbol and r = (n - 1) mod L + 1: the split succeeds if and only if the estimate admits r bytes. |
| `StructuredAppend.KanjiSplitFails` | libqrencode/qrinput.c:1620-1629 | 140 Kanji characters at version 9-L are an example: they fit, but the split fails. |
| `StructuredAppend.SomethingFits` | libqrencode/qrinput.c:1620-1647 | An empty symbol of any version from 1 on has room for a character of every mode, so the split makes progress and never looks before the first entry. |
| `StructuredAppend.PartsCorrect` | libqrencode/qrinput.c:1578-1676 | On success there are 1 to 16 parts that fit the requested version, together they hold the message with its modes, the parity is that of the message, and more than one part are numbered from 1 on. |
| `StructuredAppend.PartVersion` | libqrencode/qrinput.c:1578-1676 | The symbol of a part has the larger one of the requested version and the version that the estimates for the part ask for; the part itself fits the requested one. |
| `StructuredAppend.PartVersionShort` | libqrencode/qrinput.c:1578-1676 | If Kanji entries have at most 256 bytes, it has the requested version except for version 26, exactly where the estimates for the part skip that version. |
| `StructuredAppend.FullPieces` | libqrencode/qrinput.c:1608-1656 | When one entry is split, every part but the last holds one piece, of as many bytes as fit an empty symbol. |
| `StructuredAppend.DigitsOutgrow` | libqrencode/qrinput.c:1578-1676 | Digits split for version 26: at levels L and M every part but the last becomes a symbol of version 27, at levels Q and H one of version 26. |
| `StructuredAppend.SplitHigh` | libqrencode/qrinput.c:1608-1656 | The parts hold no Kanji character with a second byte below 0x40 exactly when the message holds none. |
| `StructuredAppend.PartsExist` | libqrencode/qrinput.c:1578-1676 | If every Kanji entry has at most 2^l bytes, the split succeeds exactly for a version from 1 on and at most 16 parts. |
| `StructuredAppend.InputParity` | libqrencode/qrinput.c:308-325 | The XOR of all data bytes, headers left out. |
| `StructuredAppend.InsertHeader` | libqrencode/qrinput.c:247-273 | Puts the header in front, exactly for at most 16 symbols and a number between 1 and their count. |
| `StructuredAppend.QRStruct.CalcParity` | libqrencode/qrinput.c:1525-1539 | The XOR of the parities of the inputs is that of all their data. |
| `StructuredAppend.QRStruct.InsertHeaders` | libqrencode/qrinput.c:1678-1700 | Numbers the inputs with the parity, which is computed if it is not known; a single input stays as it is, more than 16 are refused, and an input that occurs more than once gets a header for each place. |
| `StructuredAppend.Detach` | libqrencode/qrinput.c:1620-1655 | The list is cut before an entry or within it, and the rest goes to a new input. |
| `StructuredAppend.Distribute` | libqrencode/qrinput.c:1608-1658 | The loop over the list terminates and leaves exactly the specified parts in new inputs. |
| `StructuredAppend.SplitQRinputToStruct` | libqrencode/qrinput.c:1578-1676 | Leaves the given input alone; returns the numbered parts with the parity, or nothing exactly when the specified split fails. |
| `Splitting.CostsAgree` | libqrencode/split.c:109-116 | When the cost test sends digits to the alphanumeric scanner, that scanner does not refuse them. |
| `Splitting.EatProgress` | libqrencode/split.c:259-280 | Every step eats at least one byte, what it eats passes the check of its mode, and Kanji mode occurs only with the Kanji hint. |
| `Splitting.PiecesJoin` | libqrencode/split.c:259-280 | The segments of a string are all accepted, and together they are the string. |
| `Splitting.EatNum` | libqrencode/split.c:83-121 | Appends exactly the specified segment; which one that is, in encoded bits, is stated by SplittingChoices.DigitsBeforeByte, DigitsBeforeLetter and DigitsAlone. |
| `Splitting.EatAn` | libqrencode/split.c:123-170 | The same for the alphanumeric scanner. |
| `Splitting.ScanAn` | libqrencode/split.c:134-152 | The loop with embedded digit runs ends where the specification says. |
| `Splitting.EatKanji` | libqrencode/split.c:172-187 | The loop eats all Kanji characters that follow. |
| `Splitting.Eat8` | libqrencode/split.c:189-257 | Appends exactly the 8-bit segment. |
| `Splitting.Scan8` | libqrencode/split.c:205-250 | The loop with its three kinds of runs ends where the specification says. |
| `Splitting.SplitString` | libqrencode/split.c:259-280 | Terminates, never fails, and appends the segments of the string. |
| `Splitting.DupAndToUpper` | libqrencode/split.c:282-304 | The in-place loop converts lower case letters outside of Kanji characters, and nothing else. |
| `Splitting.SplitStringToQRinput` | libqrencode/split.c:306-326 | Fails exactly for the empty string; otherwise appends the segments of the string, in upper case if asked for. |
| `SplittingChoices.DigitsBeforeByte` | libqrencode/split.c:99-107 | A run of digits before an 8-bit character becomes a numeric segment, which ends with the run, if and only if the segment takes no more encoded bits than the digits as bytes; equivalently, if run and character take no more bits in two segments than in one. |
| `SplittingChoices.DigitsBeforeLetter` | libqrencode/split.c:108-116 | Before an alphanumeric character: if and only if run and character take no more encoded bits in two segments than in one alphanumeric segment. |
| `SplittingChoices.DigitsAlone` | libqrencode/split.c:117-120 | Before a Kanji character and at the end the digits are always a numeric segment. |
| `SplittingChoices.AnEndMeaning` | libqrencode/split.c:134-152 | An alphanumeric scan ends at the first digits for which it saves encoded bits to leave, a return charged with another header, or behind the last alphanumeric character. |
| `SplittingChoices.LettersBeforeByte` | libqrencode/split.c:154-163 | Before another character the alphanumeric data is kept if and only if data and character take no more encoded bits in two segments than in one of bytes. |
| `SplittingChoices.LettersAlone` | libqrencode/split.c:165-168 | Otherwise the segment ends where the scan ends. |
| `SplittingChoices.BytesStep` | libqrencode/split.c:205-250 | A scan of bytes ends at the end, at a Kanji character, and at digits or alphanumeric characters for which it saves encoded bits to leave, a return charged with another header; otherwise it goes on behind them. |
| `SplittingChoices.DigitsOnly` | libqrencode/split.c:83-121 | A string of digits only is one numeric segment, for every version and hint. |
| `SplittingChoices.LettersOnly` | libqrencode/split.c:123-170 | A string of alphanumeric characters without digits is one alphanumeric segment. |
| `SplittingChoices.BytesOnly` | libqrencode/split.c:189-257 | A string of 8-bit characters is one 8-bit segment. |
| `SplittingChoices.KanjiOnly` | libqrencode/split.c:172-187 | With the Kanji hint a string of Kanji characters is one Kanji segment. |
| `SplittingChoices.Letters` | libqrencode/split.c:296-298 | Exactly the letters a to z change, to the same letter in upper case. |
| `SplittingChoices.UpperCase` | libqrencode/split.c:282-304 | Every byte stays or becomes its upper case; one that stays a lower case letter belongs to a Kanji character, with the Kanji hint. |
| `Encoders.EncodeString` | libqrencode/qrencode.c:633-664 | Returns a symbol exactly when hint and version are valid, the string is not empty and the segments that the splitter makes of it are encodable for the requested version (VersionExact.FinalExists). |
| `Encoders.StringReadable` | libqrencode/qrencode.c:633-664 | A reader recovers the string if and only if all its Kanji segments have second bytes of at least 0x40; with the 8-bit hint always. |
| `Encoders.StringRecovered` | libqrencode/qrencode.c:633-664 | For any hint: if no byte below 0x40 follows one with which it would count as a Kanji character, a reader recovers the string. |
| `Encoders.LowKanjiLost` | libqrencode/split.c:66-70 | With the Kanji hint a symbol is always made for the string 82 01, and a reader never gets the string back from it. |
| `Encoders.EncodeInputStructured` | libqrencode/qrencode.c:797-827 | Encodes every input of a set, each at its own level and for its own requested version, also an input that occurs more than once; fails exactly when the set is empty or one of its inputs is not encodable. |
| `Encoders.EncodeInputToStructured` | libqrencode/qrencode.c:829-841 | Splits the input and encodes the numbered parts: every part of a successful split gets its symbol, and the only failures are those of the split. |
| `Encoders.StructuredReadable` | libqrencode/qrencode.c:797-841 | End to end for structured append: the symbols of a message, read one by one, give every byte in its mode and in order if and only if Kanji second bytes are at least 0x40, and each symbol of a larger set shows its number, the number of symbols and the parity. |
| `SemaphoreHandOff.NextInv` | src/CryptoNoteWrapper/SemaphoreUtils.cpp:25-45 | Every step keeps exactly one token (available, or with one caller or job), and the assertion of the step holds. |
| `SemaphoreHandOff.RunSafe` | src/CryptoNoteWrapper/SemaphoreUtils.cpp:25-45 | In every run of any number of callers, at every point there is exactly one token and the assertion available() == 0 of every step holds. |
| `SemaphoreHandOff.MutualExclusion` | src/CryptoNoteWrapper/SemaphoreUtils.cpp:25-45 | At no point of a run do two callers or jobs hold the token. |
| `SemaphoreHandOff.WaitAfterOwnJob` | src/CryptoNoteWrapper/SemaphoreUtils.cpp:34-36 | When the wait() of a caller succeeds, its own job has released the token before. |
| `SemaphoreHandOff.OrdinaryRun` | src/CryptoNoteWrapper/SemaphoreUtils.cpp:25-45 | From every state in which the token is available, a caller that has not begun can lock, start its job, let it enter and leave, wait and unlock; then the token is available again. |
| `SemaphoreHandOff.ShortRun` | src/CryptoNoteWrapper/SemaphoreUtils.cpp:25-32 | A caller without a job can lock and unlock. |
| `SemaphoreHandOff.Progress` | src/CryptoNoteWrapper/SemaphoreUtils.cpp:25-45 | In every reachable state in which some caller has not finished, some step is possible. |
| `SemaphoreHandOff.RunBounded` | src/CryptoNoteWrapper/SemaphoreUtils.cpp:25-45 | A run of n callers has at most 6 n steps. |
| `SemaphoreHandOff.RunCompletes` | src/CryptoNoteWrapper/SemaphoreUtils.cpp:25-45 | A run that cannot go on has brought every caller to its end and made the token available. |

## Left out

- Micro QR codes (`mqrspec.c`, `mmask.c`, the `mqr` branches), FNC1 and ECI entries.
- Other field polynomials, first roots and symbol sizes of the codec than 0x11d, 0 and 8: they are never used, and the check at `libqrencode/rscode.c:162` does not show that a polynomial is primitive.
- Failing allocations, `errno`, thread locks, and freeing of memory; a list is a sequence in a field, so sharing of list nodes and the `tail` pointer of an input are not modelled.
- The cache of initial frames: every call draws a new frame.
- StructuredAppend.SplitQRinputToStruct: an input that already contains structured-append headers is not split by the model; inputs come from a user's own entries.
- StructuredAppend.KanjiSplits: when a split fails is in closed form for one Kanji entry; in a longer message the room that is left for an entry depends on those before it, and StructuredAppend.SplitFailsWhen says it step by step.
- Inputs.QRInput.Append: after a header of another length than three bytes, which the code accepts and later reads beyond, the contract does not promise a valid list.
- The other entry points (`QRcode_encodeData`, `QRcode_encodeDataStructured` and their variants) only append one 8-bit entry or split a string before they call what is modelled.
- That the output of the string splitter is as short as possible: each choice is characterised in encoded bits (`SplittingChoices.dfy`), but its greedy tests do not guarantee the least total.
- The figures of the capacity and block tables are those of the source: they are proved consistent with each other and with the number of modules, not derived from the standard.
- Decoding with error correction: unique decoding within half the parity is proved, a decoder is not given.
- The command line tool, and all Qt, wallet and network code apart from the semaphore helpers; `SemaphoreHandOff.RunCompletes` is about callers that take the token once, and freedom from deadlock is not claimed for other users (`src/CryptoNoteWrapper/WalletGreenWorker.cpp:648` acquires again while the token is held).
