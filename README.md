# UTF-8 codec, modelled and verified in Dafny

This project models `src/utf8.cpp`, a small UTF-8 codec with three parts:

- `AsciiToUnicode` widens each character of a string to a code point.
- `UTF8::Encode` turns code points into UTF-8 bytes.
  - It branches on the bit length that `log2n` counts.
  - Surrogates and values above U+10FFFF become U+FFFD.
- `UTF8::Decode` turns bytes back into code points.
  - It is a state machine over three fields of the codec object: the accumulated value, the expected sequence length and the position within the sequence.

The model is spread over five modules:

- `Bits` (`bits.dfy`): powers of two and bit length. `Log2n` is the source's shift loop, proved to return the bit length.
- `Utf8Codec` (`utf8.dfy`) holds the codec itself:
  - the constants;
  - `AsciiToUnicode`;
  - the encoder specification `EncodeUnit`/`EncodeAll`, which follows the source's branches, masks and constants;
  - the decoder specification: one byte (`Step`), a byte sequence (`Run`) and a decode call (`DecodeBytes`);
  - the class `UTF8`, whose fields are the three `Impl` fields.
    - `UTF8.Encode` is the source's `for` loop.
    - `UTF8.Decode` is the source's loop, including the inner loop that counts a lead byte's 1-bits by shifting it. Both are proved against the specification functions.
- `Rfc3629` (`rfc3629.dfy`): well-formed UTF-8 as defined by the syntax of section 4 of RFC 3629.
- `EncoderProperties` (`encoder_properties.dfy`): the encoder against the code point table of section 3 of RFC 3629, the replacement rule, the byte counts, well-formedness of the output and the boundary examples.
- `DecoderProperties` (`decoder_properties.dfy`) proves the round trip in both directions:
  - decode after encode is the identity on Unicode scalar values;
  - encode after decode is the identity on well-formed UTF-8.

  It also proves how ASCII, stray continuation bytes and characters split between two calls are decoded.

The three fields live in the object between calls, but every decode call clears the position and the accumulator before it reads a byte (src/utf8.cpp:85-86). So the output of a call never depends on earlier calls to the same object, and a character whose bytes are split between two calls is lost (`SplitCharacterNotResumed`, `DecodeSplitAcrossCalls`). `RunAppend` shows that the state machine itself would compose if the state were kept between calls.

The model is true to the code in these details:

- The decoder is permissive, like the source.
  - A continuation byte contributes its low six bits whatever its top bits are.
  - A byte of 0x80..0xBF in lead position announces a length of 1. After it, the position never matches the length again, so the rest of the call emits only ASCII bytes (`StrayContinuation`).
  - Overlong forms, surrogates and values past U+10FFFF are not rejected, and bytes F8..FF are read as four-byte leads (`PermissiveCharacter` and the examples after it).
- The test `encodingPosition == utf8RepresnetationLen - 1` is on `size_t`. It is only reached after a lead byte of the same call has set the length to at least 1, so the subtraction never wraps and is modelled on `nat`.
- Each `(x & mask) | tag` in the encoder combines disjoint bits. It is written as `tag + x % (mask + 1)`.
- `chunk <<= 1` on the `uint8_t` byte is `ShiftLeft`: the top bit falls off.

## Model

| member | source | states |
|---|---|---|
| `Bits.BitLen` | src/utf8.cpp:14-22 | The number of significant bits of n is at most n, and at least 1 for every n > 0. |
| `Bits.Log2n` | src/utf8.cpp:14-22 | The shift loop returns the bit length: 0 for 0, otherwise the unique k with 2^(k-1) <= n < 2^k. |
| `Bits.BitLenBounds` | src/utf8.cpp:17-20 | The bit length is 0 only for 0 and otherwise brackets n between consecutive powers of two. |
| `Bits.BitLenAtMost` | src/utf8.cpp:48-69 | A value fits in k bits exactly when it is below 2^k, which is what the encoder's bit-count tests decide. |
| `Utf8Codec.AsciiToUnicode` | src/utf8.cpp:26-28 | The output has one code point per input character, equal to the character for every 7-bit character. |
| `Utf8Codec.EncodeUnit` | src/utf8.cpp:47-78 | The bytes written for one code point are 1 to 4. |
| `Utf8Codec.EncodeAll` | src/utf8.cpp:46-79 | The encoder writes at least one and at most four bytes per code point. |
| `Utf8Codec.EncodeAllAppend` | src/utf8.cpp:44-80 | Encoding a + b gives the encoding of a followed by the encoding of b. |
| `Utf8Codec.LeadLength` | src/utf8.cpp:95-98 | The length a lead byte announces is at most 4 and is 0 exactly for bytes below 0x80. |
| `Utf8Codec.Step` | src/utf8.cpp:88-113 | One byte emits at most one code point. |
| `Utf8Codec.Run` | src/utf8.cpp:87-115 | A decode never emits more code points than it reads bytes. |
| `Utf8Codec.Reset` | src/utf8.cpp:85-86 | A decode call starts with position and accumulator 0, whatever length is left over. |
| `Utf8Codec.DecodeBytes` | src/utf8.cpp:83-117 | One decode call returns no more code points than it is given bytes. |
| `Utf8Codec.RunSameBehaviour` | src/utf8.cpp:93-112 | States that agree on value and position, and on length while a sequence is open, emit the same output on every input and stay in agreement. |
| `Utf8Codec.RunIgnoresStaleLength` | src/utf8.cpp:85-86 | The expected length left over from an earlier call never changes the output of a call. |
| `Utf8Codec.ShiftLeft` | src/utf8.cpp:97 | Shifting the 8-bit working byte doubles it and drops the top bit when that bit was set. |
| `Utf8Codec.LeadShifts` | src/utf8.cpp:95-98 | Each shift of a lead byte removes one leading 1-bit and moves the remaining payload bits up. |
| `Utf8Codec.LeadLoopTest` | src/utf8.cpp:95 | The counting loop goes on exactly while leading 1-bits remain and fewer than 4 have been counted. |
| `Utf8Codec.LeadPayload` | src/utf8.cpp:99 | Shifting the counted 1-bits out and back keeps exactly the low 8 - len bits of the lead byte. |
| `Utf8Codec.LeadStepState` | src/utf8.cpp:93-100 | Where the counting loop stops, the length is the lead byte's 1-bits capped at 4, the accumulator holds its payload and the position is 1. |
| `Utf8Codec.UTF8.constructor` | src/utf8.cpp:36-39 | A fresh codec has no sequence in progress and an accumulated value of 0. |
| `Utf8Codec.UTF8.AppendEncoded` | src/utf8.cpp:47-78 | One round of the encoding loop appends exactly the unit of one code point to the bytes written so far. |
| `Utf8Codec.UTF8.Encode` | src/utf8.cpp:43-81 | The encoding loop returns the units of all code points, in order. |
| `Utf8Codec.UTF8.Decode` | src/utf8.cpp:83-117 | The output depends only on this call's input. The fields end in the state the state machine reaches from cleared position and accumulator. |
| `EncoderProperties.EncoderBranch` | src/utf8.cpp:47-69 | The tests for at most 7, 11, 16 and 21 bits select the ranges up to 0x7F, 0x7FF, 0xFFFF and 0x1FFFFF. |
| `EncoderProperties.EncodeUnitByRange` | src/utf8.cpp:47-78 | The encoder writes, per code point range, the bytes of the RFC 3629 section 3 table for scalar values, plus the codec's rule that surrogates and values above 0x10FFFF become EF BF BD. The masks never drop a bit inside a range. |
| `EncoderProperties.EncodedLength` | src/utf8.cpp:48-77 | Each code point becomes 1, 2, 3 or 4 bytes according to its range. Unencodable values take 3. |
| `EncoderProperties.ReplacementForUnencodable` | src/utf8.cpp:58-77 | A surrogate or a value above 0x10FFFF is encoded as EF BF BD. |
| `EncoderProperties.OutOfRangeFitsTwentyOneBits` | src/utf8.cpp:69 | 0x110000 has 21 bits, yet it is replaced by EF BF BD because of the upper bound test. |
| `EncoderProperties.EncodeUnitWellFormed` | src/utf8.cpp:48-77 | Every unit written is one well-formed UTF-8 character: lead pattern by length, tails in 0x80..0xBF, no overlong form, no surrogate. |
| `EncoderProperties.EncodeAllWellFormed` | src/utf8.cpp:43-81 | The encoder's output is well-formed UTF-8 for every input. |
| `EncoderProperties.EncodeSingle` | src/utf8.cpp:46-78 | A one-element input is encoded exactly as the range table says. |
| `EncoderProperties.EncodeBoundaryExamples` | src/utf8.cpp:48-74 | 7F, C2 80, DF BF, E0 A0 80, EF BF BF, F0 90 80 80 and F4 8F BF BF for the smallest and largest value of each length. |
| `EncoderProperties.EncodeReplacementExamples` | src/utf8.cpp:6 | D800, DFFF and 0x110000 give EF BF BD, and no input gives no output. |
| `EncoderProperties.AsciiEncodesToItself` | src/utf8.cpp:26-28 | ASCII text widened to code points encodes back to the same bytes. |
| `DecoderProperties.RunAppend` | src/utf8.cpp:87-115 | Decoding a + b is decoding a, then decoding b from the state a leaves behind. |
| `DecoderProperties.RunCons` | src/utf8.cpp:87-115 | Decoding a byte in front of more bytes is one step followed by the rest. |
| `DecoderProperties.UnitRoundTrip` | src/utf8.cpp:43-117 | The bytes of one scalar value decode, from any call's start, back to that value, and leave the decoder at rest. |
| `DecoderProperties.RoundTripFrom` | src/utf8.cpp:83-117 | Decoding the encoding of scalar values gives them back from any starting length, and ends with position and accumulator 0. |
| `DecoderProperties.RoundTrip` | src/utf8.cpp:43-117 | Decode(Encode(cps)) == cps when every element is a Unicode scalar value. |
| `DecoderProperties.ReplacementExactly` | src/utf8.cpp:58-77 | The encoder writes EF BF BD exactly for surrogates, values above 0x10FFFF and U+FFFD itself. |
| `DecoderProperties.CharValueEncodes` | src/utf8.cpp:104-105 | Every well-formed character is the encoding of the scalar value made of its lead payload and six bits per tail. |
| `DecoderProperties.DecodeWellFormedFrom` | src/utf8.cpp:83-117 | Well-formed UTF-8 decodes, from any starting length, into scalar values whose encoding is the input, and leaves the decoder at rest. |
| `DecoderProperties.CharacterThenRest` | src/utf8.cpp:87-115 | A well-formed character at the front emits exactly its value, leaves the decoder at rest, and the rest of the input decodes on from there. |
| `DecoderProperties.DecodeWellFormed` | src/utf8.cpp:83-117 | Encode(Decode(bytes)) == bytes for well-formed UTF-8, and every decoded value is a Unicode scalar value. |
| `DecoderProperties.DecodeAscii` | src/utf8.cpp:88-89 | ASCII bytes are emitted one for one as they come, and they leave the state as it was, in any state. |
| `DecoderProperties.AsciiInsideCharacterExample` | src/utf8.cpp:88-89 | C3 41 A9 decodes to U+0041 then U+00E9: the ASCII byte comes out at once and the character still completes. |
| `DecoderProperties.AsciiOnly` | src/utf8.cpp:88-89 | Keeping only the ASCII bytes never lengthens a sequence. It keeps nothing of bytes at or above 0x80 and everything of ASCII. |
| `DecoderProperties.MidCharacter` | src/utf8.cpp:102-112 | Before the last byte of a character, bytes at or above 0x80 emit nothing; they only advance the position and append their low six bits to the accumulator. |
| `DecoderProperties.CompleteCharacter` | src/utf8.cpp:102-111 | Bytes at or above 0x80 that reach the last position of a character emit the accumulated value with six bits from each of them, and clear position and accumulator. |
| `DecoderProperties.PermissiveCharacter` | src/utf8.cpp:93-112 | Any lead byte announcing n >= 2 bytes, followed by n - 1 bytes of 0x80 and above (their top bits unchecked), emits one value: the lead's low 8 - n bits, then six bits per later byte, whatever that value is. |
| `DecoderProperties.ThreeByteCharacter` | src/utf8.cpp:93-112 | Any E0..EF lead with two bytes of 0x80 and above decodes to the lead's low five bits followed by six bits of each later byte, unchecked. |
| `DecoderProperties.FourByteCharacter` | src/utf8.cpp:93-112 | Any lead of F0 and above with three bytes of 0x80 and above decodes to the lead's low four bits followed by six bits of each later byte, unchecked. |
| `DecoderProperties.OverlongExample` | src/utf8.cpp:93-112 | The overlong C0 80 decodes to 0. |
| `DecoderProperties.LeadAsTailExample` | src/utf8.cpp:102-105 | C3 C3 decodes to 0xC3: the second lead byte is taken as a tail. |
| `DecoderProperties.SurrogateExample` | src/utf8.cpp:93-112 | ED A0 80 decodes to the surrogate 0xD800. |
| `DecoderProperties.PastUnicodeExample` | src/utf8.cpp:93-112 | F4 90 80 80 decodes to 0x110000, past U+10FFFF. |
| `DecoderProperties.FiveOnesLeadExample` | src/utf8.cpp:95-99 | F8 88 80 80 decodes to 0x208000: the counting loop stops at 4 and four payload bits of F8 are kept. |
| `DecoderProperties.AllOnesExample` | src/utf8.cpp:93-112 | FF FF FF FF decodes to 0x3FFFFF. |
| `DecoderProperties.StrayContinuation` | src/utf8.cpp:93-112 | Once a length of 1 has been announced, the position never meets the length again, so the rest of the call emits only its ASCII bytes. |
| `DecoderProperties.StrayContinuationAtRest` | src/utf8.cpp:95-100 | A byte of 0x80..0xBF where a character should start swallows every later non-ASCII byte of the call. |
| `DecoderProperties.CharShape` | src/utf8.cpp:95-98 | The lead byte of a well-formed multi-byte character announces its full length, and the other bytes are tails. |
| `DecoderProperties.SplitCharacterLost` | src/utf8.cpp:85-86 | A well-formed multi-byte character cut in two emits nothing from either part decoded alone. |
| `DecoderProperties.SplitCharacterNotResumed` | src/utf8.cpp:85-86 | A scalar value decodes in one call, but when its bytes are split over two calls neither call emits anything. |
| `DecoderProperties.SplitCharacterExample` | src/utf8.cpp:85-86 | C3 A9 decodes to U+00E9, while C3 alone and A9 alone each decode to nothing. |
| `DecoderProperties.EncodeThenDecode` | src/utf8.cpp:43-117 | On any codec object, whatever it decoded before, decoding what it encoded returns the scalar values and leaves it at rest. |
| `DecoderProperties.DecodeSplitAcrossCalls` | src/utf8.cpp:83-117 | The same codec given C3 and then A9 returns nothing from either call. |

## Left out

- Memory management is not modelled: the private-implementation pointer, the destructor and `encode.reserve(4)` (src/utf8.cpp:36-41, 45). A codec is a fresh object of the class.
- `Utf8Codec.UTF8.constructor`: the source leaves all three fields indeterminate. The model clears value and position and leaves the length unconstrained. Every decode call clears value and position itself, and the length is only read after a lead byte of the same call has set it.
- `Utf8Codec.AsciiToUnicode`: characters of 128 and above are widened as unsigned bytes. The source's `char` may be signed, so its value for them is implementation-defined. The contract speaks only of 7-bit characters.
- `Utf8Codec.UTF8.Decode`: the accumulator is an unbounded natural. The width of `UnicodeCodePoint` is declared in `UTF8/utf8.hpp`, which is not part of this model, so a wrap-around of the accumulator on long malformed runs (for example after a stray continuation byte) is not modelled. All round-trip and well-formedness lemmas are about well-formed input, where the value never exceeds 0x10FFFF.
- `Utf8Codec.UTF8.Encode`: code points are unbounded naturals, not the unsigned type of unknown width declared in that header. Every branch, including the replacement for values above 0x10FFFF, is modelled.
- Concurrency: the code has none, and an object's fields are only touched by its own decode call.
