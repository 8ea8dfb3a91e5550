# BitShadow core in Dafny

A model of the two libraries that carry the logic of the BitShadow web app.

- `lib/steganography.ts` hides a text message in the least significant bits (LSBs) of the R, G and B bytes of an RGBA image.
  - The message is first run-length compressed into `§c§n§` markers.
  - It is then optionally XOR-ed with a repeating key over UTF-16 code units.
  - It is then UTF-8 encoded and unpacked into bits, most significant bit first.
  - A 64-bit all-zero end marker follows the message bits.
  - The decoder reads the LSBs back and stops at the first run of 64 zero bits.
- `lib/crypto.ts` provides the envelope that the app embeds.
  - The envelope is a versioned record `{v, alg, kdf, iter, salt, iv, ct}`.
  - The binary fields are carried as base64.
  - A heuristic password scorer sits beside the envelope.

Modules, leaf to root:

| module | file | models |
|---|---|---|
| `Types` | types.dfy | bytes, bits, UTF-16 code units, JavaScript's `^` on code units |
| `Utf8` | utf8.dfy | `TextEncoder` (RFC 3629 section 3) and `TextDecoder` (WHATWG, replacement mode, BOM dropped) |
| `BitCodec` | bit_codec.dfy | `stringToBits`, `bitsToString` |
| `Compression` | compression.dfy | `compressText`, `decompressText` |
| `XorCipher` | xor_cipher.dfy | `xorEncrypt`, `xorDecrypt` |
| `Capacity` | capacity.dfy | `calculateCapacity`, `canFitMessage` |
| `LsbSpec` | lsb_spec.dfy | what `encodeMessage` writes and `decodeMessage` reads, as functions |
| `LsbCodec` | lsb_codec.dfy | `encodeMessage`, `decodeMessage` and the LSB count of `analyzeImage`, as methods over an `ImageData` |
| `LsbProofs` | lsb_proofs.dfy | round trips, the end-marker boundary, the trailing-zero loss |
| `Base64` | base64.dfy | `arrayBufferToBase64`, `base64ToArrayBuffer`, with `btoa`/`atob` as base64 per section 4 of RFC 4648 |
| `Envelope` | envelope.dfy | `packEncryptedData`, `unpackEncryptedData` |
| `Password` | password.dfy | `calculatePasswordStrength` |

Representation choices:

- Strings are `seq<CodeUnit>`, with code units 0..0xFFFF. Lone surrogates are allowed, which Dafny's `char` cannot hold.
- Pixel bytes are `Byte` (0..255), and the bit arrays are `Bit` (0..1).
- An image is an `ImageData` class whose `data` is an `array<Byte>`.
  - `encodeMessage` allocates a new array, copies the input into it, and overwrites LSBs in a loop, as the source does.
  - The caller's array is proved unchanged.
- An absent `xorKey` is the empty key. The source treats `undefined` and `""` alike (lines 74, 207, 339).

## Model

| member | source | states |
|---|---|---|
| `Types.XorUnits` | lib/steganography.ts:78 | XOR-ing a code unit with a key unit stays a code unit, and XOR-ing again with the same key unit gives the first back |
| `Types.BitXorCancel` | lib/steganography.ts:78 | `(a ^ b) ^ b == a` for all non-negative integers |
| `Capacity.CalculateCapacity` | lib/steganography.ts:139-150 | totalPixels = w·h; totalBits = 3·totalPixels; totalBytes = floor(totalBits/8); usableBytes = totalBytes − 8 when that is positive, else 0 |
| `Capacity.CanFitMessage` | lib/steganography.ts:161-167 | canFit ⇔ n ≤ usableBytes; required = n; available = usableBytes |
| `Capacity.FullHd` | lib/steganography.ts:139-149 | 1920×1080 gives 2073600 pixels, 6220800 bits, 777600 bytes and 777592 usable bytes |
| `Capacity.FitIffBitsFit` | lib/steganography.ts:162 | for n ≥ 1, canFitMessage(n) agrees with encodeMessage's test 8n + 64 ≤ totalBits (line 219) |
| `Capacity.EmptyMessageOnTinyImage` | lib/steganography.ts:162 | a 0-byte message "fits" a 1×1 image by canFitMessage, although the 64 marker bits alone exceed its 3 bits |
| `XorCipher.Xored` | lib/steganography.ts:73-82 | same length; an empty key leaves the text unchanged; otherwise unit i XOR key[i mod \|key\|] gives back text[i] |
| `XorCipher.XorEncrypt` | lib/steganography.ts:73-82 | the loop pushes exactly the units of `Xored(text, key)` |
| `XorCipher.XorDecrypt` | lib/steganography.ts:87-89 | xorDecrypt is xorEncrypt with the same key |
| `XorCipher.XorInvolution` | lib/steganography.ts:87-89 | decrypting with the encrypting key gives the text back, for every key including the empty one |
| `XorCipher.XoredZero` | lib/steganography.ts:78-79 | with a non-empty key, an output unit is 0 iff the text unit equals the key unit at that position |
| `Compression.RunIsMaximal` | lib/steganography.ts:42-44 | the counted run is at most 999 long and all copies of its first unit; it stops at the end, at 999, or before a different unit |
| `Compression.CountRun` | lib/steganography.ts:39-44 | the inner loop's count is the length of the capped run starting at i |
| `Compression.CompressText` | lib/steganography.ts:31-57 | the nested loops produce `Compress(text)`; empty input is returned unchanged |
| `Compression.CompressRun` | lib/steganography.ts:37-54 | a maximal run of n copies of c becomes c×n for n ≤ 3, `§c§n§` for 4 ≤ n ≤ 999, and the marker with count 999 followed by the blocks of the remaining n − 999 copies otherwise |
| `Compression.DigitRun` | lib/steganography.ts:65 | `\d+` consumes exactly the leading ASCII digits |
| `Compression.MarkerMatches` | lib/steganography.ts:47-67 | a marker written by compressText is one match of `/§(.)§(\d+)§/` giving back its unit and count, unless the unit is a line terminator |
| `Compression.DecimalValueOfDecimal` | lib/steganography.ts:65-67 | `parseInt` reads back the decimal count that the template literal wrote |
| `Compression.DecompressWithoutSection` | lib/steganography.ts:62-68 | text without `§` passes decompressText unchanged |
| `Compression.DecompressCompress` | lib/steganography.ts:31-68 | decompressText(compressText(t)) == t for t with no `§` and no run of four copies of one line terminator |
| `Compression.LineFeedRunSurvives` | lib/steganography.ts:47-67 | four line feeds compress to the marker `§c§n§` with c a line feed and n = 4, which decompressText leaves as it is; with `.` matching every unit it would expand back |
| `Compression.DecompressDotAllCompress` | lib/steganography.ts:65 | with `.` matching every code unit, the round trip holds for all t with no `§` |
| `Utf8.DecodeOfEncode` | lib/crypto.ts:16-25 | decoding the UTF-8 of s gives s with lone surrogates replaced by U+FFFD and a leading U+FEFF dropped |
| `Utf8.DecodeEncode` | lib/crypto.ts:16-25 | decode(encode(s)) == s for well-formed s not starting with U+FEFF |
| `Utf8.LeadingBomIsDropped` | lib/steganography.ts:122-123 | the string holding only U+FEFF encodes to EF BB BF, which TextDecoder decodes to "" |
| `Utf8.EncodeHasNoZeroByte` | lib/steganography.ts:96-97 | a text with no U+0000 encodes to bytes none of which is 0 |
| `BitCodec.StringToBits` | lib/steganography.ts:94-106 | the nested loops push exactly the bits of the UTF-8 bytes, eight per byte, MSB first |
| `BitCodec.BytesToBitsAt` | lib/steganography.ts:99-103 | exactly 8·\|bytes\| bits; bit k of byte i, MSB first, sits at 8i + k |
| `BitCodec.BitsToString` | lib/steganography.ts:111-124 | the loops pack the bits into the bytes `BitsToBytes(bits)` and decode them |
| `BitCodec.BitsToBytesOfBytesToBits` | lib/steganography.ts:99-120 | bytes to bits and back to bytes gives the bytes |
| `BitCodec.BitsToBytesLength` | lib/steganography.ts:114-120 | bitsToString makes ceil(\|bits\|/8) bytes |
| `BitCodec.BitsToBytesGroups` | lib/steganography.ts:114-120 | byte g packs bits 8g..8g+8; a final group of k < 8 bits becomes its k-bit value, neither dropped nor padded |
| `BitCodec.SevenBitsOfB` | lib/steganography.ts:116-117 | "b" is bits 01100010, and its first seven bits alone pack to 0x31, "1" |
| `LsbSpec.SetLsb` | lib/steganography.ts:239-243 | `x \| 1` / `x & 0xFE` keep the upper seven bits, set the LSB to the bit, and move the byte by at most 1 |
| `LsbSpec.FirstMarkerFrom` | lib/steganography.ts:303-317 | the result is a start of 64 zero bits with none earlier, or none exists |
| `LsbProofs.EmbeddedInvariants` | lib/steganography.ts:233-245 | alpha bytes and bytes past the last carrier are unchanged; every byte moves by at most 1; the colour byte of rank k takes bit k in its LSB and keeps its upper bits |
| `LsbCodec.EmbedBits` | lib/steganography.ts:228-245 | a fresh clone whose contents are `Embedded(data, allBits)` |
| `LsbCodec.EncodeMessage` | lib/steganography.ts:196-266 | fails iff \|allBits\| > totalBits, then returning the caller's own image with ceil(\|allBits\|/8) and usableBytes; otherwise returns a fresh image of the same size holding `Embedded(data, allBits)` and its stats; the input buffer is never changed |
| `LsbCodec.ExtractLsbs` | lib/steganography.ts:297-301 | the loop collects `data[i] & 1` of every non-alpha byte, in order |
| `LsbCodec.FindEndMarker` | lib/steganography.ts:303-317 | the zero-counter loop with its `break` returns the start of the first run of 64 zero bits, or −1 |
| `LsbCodec.DecodeMessage` | lib/steganography.ts:283-357 | no run of 64 zero bits gives the "no message" error; a run starting at 0 gives "empty message"; otherwise the bits before the run are decoded, XOR-ed and decompressed |
| `LsbCodec.CountLsbs` | lib/steganography.ts:451-458 | the zero and one counts are those of the LSB stream, and they sum to the number of non-alpha bytes |
| `LsbCodec.AnalyzeImage` | lib/steganography.ts:446-495 | the capacity is calculateCapacity(w, h), and zeros + ones == totalBits |
| `LsbCodec.CarriersOfImage` | lib/steganography.ts:139-150 | a buffer of w·h RGBA pixels holds exactly calculateCapacity's totalBits colour bytes, one carrier bit each |
| `LsbProofs.LsbStreamOfEmbedded` | lib/steganography.ts:233-301 | the stream decode reads from an embedded image is the embedded bits followed by the image's own bits after them |
| `LsbProofs.FitsWhenAccepted` | lib/steganography.ts:219 | encodeMessage accepts iff allBits fit the 3·w·h colour bytes of the buffer |
| `LsbProofs.TooLargeIffCannotFit` | lib/steganography.ts:219-225 | for a non-empty payload, encodeMessage's overflow test is the negation of canFitMessage (line 162) on the payload's byte length |
| `LsbProofs.MarkerAfterPayload` | lib/steganography.ts:303-317 | if the payload bits hold no 64-zero run, the first marker starts where the payload's trailing zero bits start |
| `LsbProofs.NoZeroByteNoMarker` | lib/steganography.ts:303-317 | bytes none of which is 0 give bits with no run of 64 zeros |
| `LsbProofs.DecodeOfEncoded` | lib/steganography.ts:196-357 | decoding an encoded image yields the payload bits without their trailing zero bits |
| `LsbProofs.ExactIffLastBitIsOne` | lib/steganography.ts:327 | dropping trailing zeros keeps the bits intact iff they are empty or end in 1 |
| `LsbProofs.EmptyMessageDecodesAsEmpty` | lib/steganography.ts:329-334 | encoding "" and then decoding always reports the empty message error |
| `LsbProofs.MessageOfPayload` | lib/steganography.ts:336-344 | UTF-8 decoding, un-XOR-ing and decompressing the whole payload that lines 204-212 built gives back the message |
| `LsbProofs.RoundTripWhenLastBitIsOne` | lib/steganography.ts:196-357 | the code as written returns exactly the encoded message when the payload bits end in 1 |
| `LsbProofs.LetterBDecodesAsOne` | lib/steganography.ts:303-336 | encoding "b" and decoding gives "1" from 7 bits |
| `LsbProofs.RoundTripCorrected` | lib/steganography.ts:303-334 | with the boundary rounded up to a byte, decode returns the message whenever the last payload byte is non-zero |
| `LsbProofs.LetterBCorrected` | lib/steganography.ts:303-334 | the corrected decoder reads "b" back |
| `LsbProofs.CompressWellFormed` | lib/steganography.ts:31-57 | compression keeps a string free of lone surrogates |
| `LsbProofs.PlainRoundTripCorrected` | lib/steganography.ts:196-357 | without a key, every accepted, well-formed, non-empty message with no NUL, no `§`, no leading U+FEFF and no 4-run of a line terminator comes back exactly from the corrected decoder |
| `Base64.Letter` | lib/crypto.ts:34 | the RFC 4648 alphabet: the digit of value v reads back as v |
| `Base64.EncodeLength` | lib/crypto.ts:34 | the encoding of b has length 4·ceil(\|b\|/3) |
| `Base64.BtoaOfBinary` | lib/crypto.ts:30-34 | btoa throws iff some code unit exceeds 0xFF; a binary string is encoded as its bytes |
| `Base64.AtobEncode` | lib/crypto.ts:28-45 | atob(btoa(b)) == b |
| `Base64.AtobIgnoresWhitespace` | lib/crypto.ts:39 | ASCII whitespace anywhere in the input does not change atob's result |
| `Base64.AtobRejectsForeign` | lib/crypto.ts:39 | a code unit that is not a digit, `=` or whitespace makes atob throw |
| `Base64.AtobRejectsSingleDigit` | lib/crypto.ts:39 | 4n+1 digits make atob throw |
| `Base64.AtobDropsLeftoverBits` | lib/crypto.ts:39 | "QR==" and "QQ==" both decode to "A", so atob accepts non-canonical input |
| `Base64.ArrayBufferToBase64` | lib/crypto.ts:28-35 | the loop builds the binary string of the bytes; the result is their base64, of length 4·ceil(n/3), and atob gives the bytes back |
| `Base64.Base64ToArrayBuffer` | lib/crypto.ts:38-45 | fails iff atob throws; otherwise a fresh array holding atob's bytes |
| `Envelope.Unpack` | lib/crypto.ts:196-222 | every failure is the single error "Formato de dados inválido" |
| `Envelope.UnpackPack` | lib/crypto.ts:174-222 | unpacking a packed record gives every field back |
| `Envelope.PackMembers` | lib/crypto.ts:182-190 | pack writes v = 1 and exactly the seven keys, each once |
| `Envelope.UnpackAcceptsVersionOne` | lib/crypto.ts:205-218 | unpack succeeds iff the input parses to an object whose `v` is the number 1 |
| `Envelope.UnpackChecksNothingElse` | lib/crypto.ts:211-218 | any object with v = 1 is accepted, and each field is whatever sits under its key |
| `Envelope.VersionAloneIsAccepted` | lib/crypto.ts:207-218 | `{"v":1}` is accepted with every field undefined |
| `Envelope.OtherInputsAreRejected` | lib/crypto.ts:205-221 | v = 2, v = "1", null, a bare number and unparsable text all give the one error |
| `Password.Clamp` | lib/crypto.ts:271 | the clamped score is within [0, 100] and equals the raw score when that is already in range |
| `Password.CalculatePasswordStrength` | lib/crypto.ts:228-281 | the step-by-step score, feedback and level equal `StrengthOf(password)`; the score is in [0, 100] and the level is the score's |
| `Password.EmptyPassword` | lib/crypto.ts:236-238 | "" scores 0, is "fraca" and gets exactly one feedback item |
| `Password.LengthBonusSteps` | lib/crypto.ts:241-245 | the length bonus is 0 below 6, 40 from 6, 60 from 10 and 80 from 14 |
| `Password.PenaltyParts` | lib/crypto.ts:264-269 | the penalties add up to at most 30, since all-letters and all-digits exclude each other |
| `Password.RawScoreRange` | lib/crypto.ts:241-269 | the raw score of a non-empty password lies in [−25, 110] |
| `Password.RawScoreCanBeNegative` | lib/crypto.ts:264-271 | "111" has a raw score of −25 and is clamped to 0 |
| `Password.RawScoreCanExceed100` | lib/crypto.ts:241-261 | "!1234ABCDabcde" has a raw score of 110 |
| `Password.DiversityNeedsTenUnits` | lib/crypto.ts:260-261 | the diversity bonus needs at least ten code units |
| `Password.SpecialRanges` | lib/crypto.ts:257 | the special-character class is exactly the 30 characters in the ASCII ranges `!`–`/`, `:`–`@`, `[`–`_` and `{`–`}` |
| `Password.ScoreInRange` | lib/crypto.ts:271-278 | every final score is in [0, 100] and its level is the score's |
| `Password.LevelMonotone` | lib/crypto.ts:273-278 | a higher score never has a lower level |
| `Password.LevelBands` | lib/crypto.ts:273-278 | each of the five levels is given to exactly one band of scores: below 30, 30-49, 50-69, 70-89, 90 and above |
| `Password.ShortFeedbackIff` | lib/crypto.ts:241-242 | "Use pelo menos 6 caracteres" is given iff 0 < length < 6 |
| `Password.RepeatFeedbackIff` | lib/crypto.ts:266-269 | "Evite caracteres repetidos" is given iff some unit other than a line terminator occurs three times in a row |

## Left out

- `loadImage`, `imageDataToBlob`, `createDownloadUrl` (lib/steganography.ts:362-441): file, image, canvas and blob I/O. The model starts from an `ImageData` and ends with one.
- The floating-point outputs are left out: `percentage` of canFitMessage, `capacityUsed` and `compressionRatio` of the encode stats, and `lsbDistribution.ratio` and `averageColor` of analyzeImage.
- `Compression.Decompress`: `char.repeat(count)` is modelled as repeating the unit `count` times for every count. In JavaScript it throws a RangeError when `parseInt` overflows to `Infinity` (a count of several hundred digits) or when the result would exceed the engine's maximum string length (for example a count of 4294967296). That bound is engine-dependent and the doubles of `parseInt` are not modelled. Markers written by compressText carry counts of at most 999, so `DecompressCompress` is unaffected.
- `LsbCodec.DecodeMessage`: nothing in decodeMessage catches that RangeError, so an image whose message bits hold such a marker makes decodeMessage throw. The model returns the expanded text as a success instead. Such a marker can come from an image the app did not write, from decoding with the wrong key, or from a `§` in the sender's own text.
- `generateSalt`, `generateIV`, `deriveKey`, `encryptMessage`, `decryptMessage` (lib/crypto.ts:47-168): platform randomness, PBKDF2 (section 5.2 of RFC 8018) and AES-GCM via WebCrypto.
  - These are foreign calls and are not modelled, so the full encrypt-embed-extract-decrypt round trip is not stated.
  - Only the `decrypt` call sits inside that function's `try`.
- `JSON.stringify` / `JSON.parse` are left out. The envelope is the object value they write and read, and the JSON text grammar is not modelled.
  - JSON numbers are integers in the model (`JsValue.Num` holds an `int`), whereas JavaScript numbers are doubles. `Unpack` is unaffected: it copies `iterations` unchecked and compares only `v` with 1.
- `Envelope.Unpack`: the model's property read gives `undefined` on arrays, strings, numbers and booleans. This holds because the envelope's keys are not properties of those values in JavaScript either.
- `Password.CalculatePasswordStrength`: `/^[a-z]+$/i` is modelled as ASCII letters only. Without the `u` flag, case-insensitive matching maps no non-ASCII code unit to an ASCII letter.
- `Password.Unique`: `new Set(password)` counts code points, with a lone surrogate counting as itself. No lemma relates it to the number of code units beyond `DiversityNeedsTenUnits`.
- `app/*` and `components/*` are React UI.
  - The encode page's fit check on the unpacked length (app/encode/page.tsx:148) is not part of this model.
  - The 32-bit length header in the documentation page's pseudocode is not what the codec does, and it is not modelled.
- The 16-byte salt and 12-byte IV lengths are not modelled, because nothing in the unpacked record checks them.

## Findings

| source | as written | input that shows it | evidently intended | confidence | as-written member | corrected member |
|---|---|---|---|---|---|---|
| lib/steganography.ts:303-327 | the bits before the first run of 64 zeros are the message, so zero bits at the end of the last payload byte are taken as part of the marker | the message "b" (0x62 = 01100010, no key) decodes as "1" (0x31) from 7 bits | the message bits end at the byte boundary, so any payload whose last byte is non-zero comes back exactly | high (proved on the model; not executed) | `LsbProofs.LetterBDecodesAsOne` | `LsbProofs.RoundTripCorrected` |
| lib/steganography.ts:47-67 | the regular expression `.` does not match line terminators, so a compressed run of four or more `\n`, `\r`, U+2028 or U+2029 is never expanded | "\n\n\n\n" compresses to its marker (c a line feed, n = 4), which decompressText returns unchanged | every marker compressText writes is expanded (the `s` flag, or `[^]`) | high (proved on the model; not executed) | `Compression.LineFeedRunSurvives` | `Compression.DecompressDotAllCompress` |

The first finding does not affect the app's own pipeline. There the payload is the packed JSON envelope, whose last character `}` (0x7D) ends in a 1 bit. A `§` written by compression is also encoded with a final byte that ends in 1 (0xA7).
