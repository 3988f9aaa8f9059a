# jbdecoder: the recursive Base64 unwrapping engine, in Dafny

jbdecoder reads a JSON document and replaces each string that holds Base64-encoded UTF-8 text
with that text. If the text is itself JSON, the string is replaced by the parsed value, which is
then decoded in turn. This project models the engine that does this.

The engine exists twice in the repository, with the same behaviour. Apart from its lower-case
names, `main.go` differs only in calling `utf8.Valid` through its helper `isValidUTF8`:

- `internal/decoder/decoder.go`: module `Decoder`.
- The top of the root `main.go`: module `MainEngine`.

`MainEngine.EnginesAgree` proves that the two compute the same value on every input.

The engine is a walk over a JSON value (`DecodeBase64Fields`):

- Objects keep their keys, and every member is decoded.
- Arrays keep their length and order, and every element is decoded.
- Numbers, booleans and null are returned as they are.
- Strings go through `DecodeBase64String`, a fixed chain of steps. If check 1 or check 2 fails,
  the string is returned unchanged:
  1. Its length in bytes is a multiple of 4, and `base64.StdEncoding` decodes it.
  2. The decoded bytes are UTF-8.
  3. The text is trimmed with `strings.TrimSpace`.
  4. If the trimmed text is JSON, it is parsed and decoded again. Otherwise the trimmed text
     replaces the string.

`DecodeBase64InMap` and `DecodeBase64InSlice` are methods with loops, as in the source.

- The map loop picks each next key with `:|`, because Go's map iteration order is unspecified.
- The slice is a fresh `array`, filled index by index from its zero value (`JNull` stands for
  Go's `nil`).
- Each method is proved against the walk: the result kept the key set (or the length), every
  entry is the decoded entry, and the whole result equals `DecodeBase64Fields` of the input.

## Modelling decisions

- **JSON values** (`JsonValue.Json`) are the values `encoding/json` produces when it unmarshals
  into `any`: map, slice, string, float64 (kept as `real`), bool and nil.
- **The JSON parser** (`json.Unmarshal`) is a parameter `parse: Parser`. Its one requirement,
  `Shrinks`, says that every string leaf of a parsed value is shorter than the parsed text.
  That holds because a JSON string needs its two quotes.
  - `JsonValue.EmptyIsNotJson` derives from it that the empty text is never JSON.
  - The walk terminates by `decreases MaxLen(v), v`, where `MaxLen` is the length of the
    longest string leaf. Decoding shortens a string, and parsing shortens it again, so the
    recursion has no need of a depth guard.
- **Strings** are sequences of code points.
  - Go's `len(s)` counts bytes, so `IsBase64` tests `|Utf8.Encode(s)| % 4`, as the source does.
  - `Base64.DecodableIsAscii` and `Utf8.EncodeAscii` show that every string the decoder accepts
    is ASCII. For those strings, byte length and character length agree.
- **`base64.StdEncoding.DecodeString`** is `Base64.Decode`. It uses the standard alphabet of
  RFC 4648 section 4 with `=` padding, in the default, non-strict mode of Go's decoder. Two
  leniencies are modelled:
  - `\r` and `\n` are skipped anywhere (`Base64.SkipsNewlines`).
  - The unused low bits of a padded final quantum need not be zero (`Base64.IgnoresTrailingBits`).
  - The standard encoder `Base64.Encode` (`EncodeToString`) is its partner:
    `Base64.DecodeEncode` proves the round trip.
- **`utf8.Valid` and `string(bytes)`** are `Utf8.Valid` and `Utf8.Decode`. They follow the
  UTF8-char grammar of RFC 3629 section 4: no overlong forms, no surrogates, nothing above
  U+10FFFF.
  - `[]byte(s)` is `Utf8.Encode`.
  - `Utf8.DecodeEncode`, `Utf8.EncodeDecode` and `Utf8.ValidIffEncoding` tie the two directions
    together: the valid byte sequences are exactly the encodings of texts.
- **`strings.TrimSpace`** is `Text.TrimSpace`. It removes the characters that `unicode.IsSpace`
  accepts, from both ends.

Where the code and the behaviour described for the tool differ, the model follows the code:

- **Decoding is not strict.** Go's default decoder accepts newlines and non-zero trailing bits.
- **Only one layer of Base64 is unwrapped per JSON layer.** Suppose a value is Base64-encoded
  twice. The first decoding gives a Base64 text that is not JSON, and that text is returned as
  it is (`Scenarios.OneLayerPerPass`). The engine recurses only into decoded text that parses as
  JSON.
- **The expectation of `internal/decoder/decoder_test.go` cannot hold as written.** The test
  expects `{"data":{"message":"distance"}}`. But `"distance"` is 8 characters of the Base64
  alphabet: the engine decodes it to the UTF-8 text `v+-jw` followed by U+001E. When that text is
  not JSON, the result holds the garbled text instead (`Scenarios.DecoderTestOutcome`).

## Model

| member | source | states |
|---|---|---|
| Decoder.IsBase64 | internal/decoder/decoder.go:16-25 | true exactly when the length is a multiple of 4 and the standard decoder accepts the string; the byte length tested equals the character length |
| Decoder.IsValidJson | internal/decoder/decoder.go:28-31 | the text parses; a text that parses is never empty |
| Decoder.LengthGuard | internal/decoder/decoder.go:18-20 | a string whose length is not a multiple of 4 is not Base64, and it is returned unchanged whatever its content |
| Decoder.NotBase64Unchanged | internal/decoder/decoder.go:35-37 | a string that fails the Base64 check is returned unchanged |
| Decoder.NonUtf8Unchanged | internal/decoder/decoder.go:44-48 | Base64 whose decoded bytes are not UTF-8 is returned unchanged, as the original string |
| Decoder.BinarySafe | internal/decoder/decoder.go:44-48 | the standard encoding of any bytes that are not UTF-8 survives decoding unchanged |
| Decoder.DecodedText | internal/decoder/decoder.go:39-50 | the trimmed text a string stands for; it is at most three quarters of the string's length and is its own trim |
| Decoder.DecodeBase64String | internal/decoder/decoder.go:34-62 | resolves one string; its contract is carried by DecodeBase64StringCases, NotTextCase, DecodedTextCase, RoundTrip and StringNeverLengthens, and MainEngine.StringEnginesAgree ties it to main.go's version |
| Decoder.DecodeBase64StringCases | internal/decoder/decoder.go:34-62 | the three outcomes of the string resolution: the string itself when it is not Base64 or not UTF-8; the trimmed text when that text is not JSON; the decoded parsed value when it is JSON. The error returns after the repeated decode (40-42) and the repeated parse (55) never decide the result |
| Decoder.NotTextCase | internal/decoder/decoder.go:35-48 | a string that does not stand for text resolves to itself |
| Decoder.DecodedTextCase | internal/decoder/decoder.go:50-61 | a string that stands for text resolves to the text's decoded JSON value when it parses, and to the text otherwise |
| Decoder.PlainTextTrimmed | internal/decoder/decoder.go:50-61 | decoded text that is not JSON replaces the string, trimmed: no space at either end, and no longer than three quarters of the original |
| Decoder.JsonUnwrapped | internal/decoder/decoder.go:53-58 | decoded text that parses to x is replaced by x, itself recursively decoded |
| Decoder.RoundTrip | internal/decoder/decoder.go:34-62 | the standard Base64 of the UTF-8 of any text u passes both checks, stands for u trimmed, and is replaced by that text's decoded JSON value or by the trimmed text |
| Decoder.DecodedField | internal/decoder/decoder.go:89-90 | a string member that stands for text resolves, as a member, to that text's decoded JSON value or to the text |
| Decoder.DecodeBase64InMap | internal/decoder/decoder.go:65-71 | a new map with exactly the keys of m, where each value is the decoding of m's value; together it is the decoded object |
| Decoder.ObjectDecoded | internal/decoder/decoder.go:65-71 | a map with m's keys holding the decoding of each of m's values is the decoded object |
| Decoder.DecodeBase64InSlice | internal/decoder/decoder.go:74-80 | a fresh array of the same length whose element i is the decoding of element i; its contents are the decoded array |
| Decoder.ArrayDecoded | internal/decoder/decoder.go:74-80 | a sequence of the same length holding the decoding of each element, in order, is the decoded array |
| Decoder.ScalarsUnchanged | internal/decoder/decoder.go:91-94 | numbers, booleans and null are returned as they are |
| Decoder.EmptyStringUnchanged | internal/decoder/decoder.go:50-61 | the empty string passes the Base64 check, but the empty text is not JSON, so "" is returned as "" |
| Decoder.DecodeBase64Fields | internal/decoder/decoder.go:83-95 | the walk; its contract is carried by ShapePreserved, NeverLengthens, ScalarsUnchanged, ObjectDecoded, ArrayDecoded and MainEngine.EnginesAgree |
| Decoder.ShapePreserved | internal/decoder/decoder.go:83-95 | at every depth, objects keep their key set, arrays their length and scalars their value; only string leaves change |
| Decoder.NeverLengthens | internal/decoder/decoder.go:83-95 | no string of the result is longer than the longest string of the input, which is the measure that bounds the recursion |
| Decoder.StringNeverLengthens | internal/decoder/decoder.go:34-62 | resolving a string never yields a value with a string longer than it |
| MainEngine.IsBase64 | main.go:25-34 | true exactly when the length is a multiple of 4 and the standard decoder accepts the string |
| MainEngine.IsValidUtf8 | main.go:37-39 | true exactly of the byte sequences that are the UTF-8 encoding of some text |
| MainEngine.IsValidJson | main.go:42-45 | the text parses; a text that parses is never empty |
| MainEngine.DecodeBase64InMap | main.go:79-85 | a new map with exactly the keys of m, where each value is the decoding of m's value; together it is the decoded object |
| MainEngine.ObjectDecoded | main.go:79-85 | a map with m's keys holding the decoding of each of m's values is the decoded object |
| MainEngine.DecodeBase64InSlice | main.go:88-94 | a fresh array of the same length whose element i is the decoding of element i; its contents are the decoded array |
| MainEngine.ArrayDecoded | main.go:88-94 | a sequence of the same length holding the decoding of each element, in order, is the decoded array |
| MainEngine.DecodeBase64String | main.go:48-76 | main.go's string resolution; its contract is carried by DecodedCase, NotTextUnchanged, PlainTextTrimmed, JsonUnwrapped and StringEnginesAgree |
| MainEngine.DecodeBase64Fields | main.go:97-109 | main.go's walk; its contract is carried by ShapePreserved and EnginesAgree |
| MainEngine.EnginesAgree | main.go:97-109 | on every JSON value, main.go's engine returns the same value as the decoder package's |
| MainEngine.StringEnginesAgree | main.go:48-76 | on every string, the two string resolutions agree |
| MainEngine.DecodedStringsAgree | main.go:59-75 | for a string that passed both checks, the two resolutions agree once the decoded values of its text agree |
| MainEngine.DecodedCase | main.go:64-75 | a string that passed both checks resolves to its text's decoded JSON value when it parses, and to the text otherwise |
| MainEngine.DecodedEnginesAgree | main.go:67-72 | the two engines decode the parsed text of a decoded string alike |
| MainEngine.NotTextUnchanged | main.go:49-62 | a string that is not Base64, or whose bytes fail isValidUTF8, is returned unchanged |
| MainEngine.PlainTextTrimmed | main.go:64-75 | decoded text that is not JSON is returned trimmed, with no space at either end |
| MainEngine.JsonUnwrapped | main.go:67-72 | decoded text that is JSON is parsed and recursively decoded |
| MainEngine.ShapePreserved | main.go:97-108 | objects keep their keys, arrays their length, and scalars are returned as they are |
| JsonValue.EmptyIsNotJson | internal/decoder/decoder.go:28-31 | no parser with the shrinking property accepts the empty text |
| Base64.Decode | internal/decoder/decoder.go:39 | a successful decoding is at most three quarters as long as its input |
| Base64.DecodeQuanta | internal/decoder/decoder.go:39 | quantum decoding, with padding only in the final quantum, yields at most three bytes per four characters |
| Base64.Encode | main_test.go:395 | `EncodeToString`: whole quanta of four characters; DecodeEncode, EncodeAppend and EncodeChars state the rest |
| Base64.DecodeEncode | internal/decoder/decoder.go:39 | the decoder accepts every standard encoding and yields the encoded bytes |
| Base64.DecodeQuantaEncode | internal/decoder/decoder.go:39 | quantum decoding inverts the encoder |
| Base64.DecodeEncodeQuantum | internal/decoder/decoder.go:39 | one encoded quantum decodes to its three bytes |
| Base64.EncodeAppend | main_test.go:392-395 | encodings of input split at a multiple of three bytes concatenate |
| Base64.EncodeChars | main_test.go:392-395 | the encoder writes only alphabet characters and '=' |
| Base64.StripNewlinesRemoves | internal/decoder/decoder.go:39 | no newline survives the skipping step |
| Base64.StripNewlinesFree | internal/decoder/decoder.go:39 | input without newlines is left as it is by the skipping step |
| Base64.StripNewlinesKeeps | internal/decoder/decoder.go:39 | every character other than a newline survives the skipping step |
| Base64.DecodableIsAscii | internal/decoder/decoder.go:18-24 | every character of an accepted input is in the alphabet, '=' or a newline, hence ASCII |
| Base64.IgnoresTrailingBits | internal/decoder/decoder.go:39 | non-strict mode: "QQ==" and "QR==" both decode to the single byte 0x41 |
| Base64.SkipsNewlines | internal/decoder/decoder.go:39 | "QU\r\nJD\n" decodes to the bytes of "ABC" |
| Base64.RejectsMalformed | internal/decoder/decoder.go:23-24 | an incomplete quantum, misplaced padding and data after padding each make decoding fail |
| Base64.IndexOfCharOf | internal/decoder/decoder.go:39 | the alphabet maps 6-bit values to characters and back |
| Base64.CharOfIndexOf | internal/decoder/decoder.go:39 | the alphabet maps characters to 6-bit values and back |
| Utf8.Decode | internal/decoder/decoder.go:50 | the text of well-formed bytes has no more characters than there are bytes |
| Utf8.Valid | internal/decoder/decoder.go:45 | `utf8.Valid`; ValidIffEncoding and NoLeadByte state its contract |
| Utf8.Encode | internal/decoder/decoder.go:18 | `[]byte(s)`, whose length `len(s)` counts: at least one byte per character; DecodeEncode, EncodeAppend and EncodeAscii state the rest |
| Utf8.DecodeEncode | internal/decoder/decoder.go:45-50 | the UTF-8 encoding of any text is valid and decodes back to the text |
| Utf8.EncodeDecode | internal/decoder/decoder.go:45-50 | valid bytes are the encoding of the text they decode to |
| Utf8.ValidIffEncoding | internal/decoder/decoder.go:45 | utf8.Valid holds exactly of the encodings of texts |
| Utf8.EncodeAppend | internal/decoder/decoder.go:50 | the encoding of a concatenation is the concatenation of the encodings |
| Utf8.EncodeAscii | internal/decoder/decoder.go:18 | ASCII text takes one byte per character |
| Utf8.NoLeadByte | internal/decoder/decoder.go:45 | bytes starting with 0xFF are never UTF-8 |
| Utf8.BinaryPayloadInvalid | main_test.go:394 | the bytes FF FE 00 01 80 81 are not UTF-8 |
| Text.TrimSpace | internal/decoder/decoder.go:50 | only space characters are cut from either end, and what is kept neither starts nor ends with a space |
| Text.IsSpace | internal/decoder/decoder.go:50 | `unicode.IsSpace`, the characters TrimSpace cuts; TrimSpace, LeadingSpaces and TrailingSpaces state what is cut |
| Text.LeadingSpaces | internal/decoder/decoder.go:50 | the leading run of space characters, ended by a non-space |
| Text.TrailingSpaces | internal/decoder/decoder.go:50 | the trailing run of space characters, ended by a non-space |
| Text.TrimSpaceIdempotent | internal/decoder/decoder.go:50 | trimming twice is trimming once |
| Text.TrimSpaceOfTrimmed | internal/decoder/decoder.go:50 | a text with no space at either end is its own trim |
| Text.TrimSpaceDropsTrailing | internal/decoder/decoder_test.go:11 | a final newline after a trimmed text is trimmed off |
| Scenarios.OneLayerPerPass | internal/decoder/decoder.go:53-61 | Base64 of Base64 of a JSON document yields the inner Base64 text after one pass and the decoded document after a second |
| Scenarios.EncodingIsTrimmed | internal/decoder/decoder.go:50 | a standard encoding has no space at either end |
| Scenarios.PlainTextRoundTrip | main_test.go:26-36 | a trimmed, non-JSON text comes back as itself from its standard encoding |
| Scenarios.DecoderTestOutcome | internal/decoder/decoder_test.go:10-24 | the test input {"data":"eyJtZXNzYWdlIjoiZGlzdGFuY2UifQo="} decodes to {"data":{"message":<the garbled text>}}, which is not what the test expects |
| Scenarios.DistanceDocEncoding | internal/decoder/decoder_test.go:11 | "eyJtZXNzYWdlIjoiZGlzdGFuY2UifQo=" is the standard encoding of {"message":"distance"} and a newline |
| Scenarios.DistancePayloadUnwraps | internal/decoder/decoder_test.go:11 | the payload "eyJtZXNzYWdlIjoiZGlzdGFuY2UifQo=" unwraps to the parsed document, with "distance" decoded too |
| Scenarios.DistanceIsBase64 | internal/decoder/decoder_test.go:21 | "distance" passes the Base64 check and stands for the garbled text v+-jw U+001E |
| Scenarios.DistanceDecoded | internal/decoder/decoder_test.go:21 | when the garbled text is not JSON, "distance" is replaced by it |
| Scenarios.GarbledEncoding | internal/decoder/decoder_test.go:21 | "distance" is the standard encoding of the UTF-8 of the garbled text |
| Scenarios.HelloWorldEncoding | main_test.go:26 | "SGVsbG8gV29ybGQ=" is the standard encoding of "Hello World" |
| Scenarios.HelloWorldDecoder | main_test.go:26-36 | "SGVsbG8gV29ybGQ=" is replaced by "Hello World" |
| Scenarios.DirectJsonArgument | main_test.go:22-37 | {"message": "SGVsbG8gV29ybGQ=", "number": 42} decodes on main.go's engine to {"message":"Hello World","number":42} |
| Scenarios.KeyDocEncoding | main_test.go:44 | "eyJrZXkiOiJ2YWx1ZSJ9Cg==" is the standard encoding of {"key":"value"} and a newline |
| Scenarios.Base64IsAnotherJson | main_test.go:40-55 | the payload "eyJrZXkiOiJ2YWx1ZSJ9Cg==" is replaced, on main.go's engine, by the parsed object, next to the number kept as 42 |
| Scenarios.KeyPayloadUnwraps | main_test.go:44-54 | "eyJrZXkiOiJ2YWx1ZSJ9Cg==", the Base64 of {"key":"value"} with a trailing newline, unwraps to the object {"key":"value"} |
| Scenarios.MessageAndNumber | main_test.go:22-55 | a "message" member is decoded and the "number" member 42 kept |
| Scenarios.OnMainEngine | main.go:97-109 | any outcome of the decoder package's engine is also main.go's |
| Scenarios.HelloEncoding | main_test.go:291 | "SGVsbG8=" is the standard encoding of "Hello" |
| Scenarios.HelloDecoder | main_test.go:333-335 | "SGVsbG8=" is replaced by "Hello" |
| Scenarios.TestEncoding | main_test.go:291 | "VGVzdA==" is the standard encoding of "Test" |
| Scenarios.TestDecoder | main_test.go:339-341 | "VGVzdA==" is replaced by "Test" |
| Scenarios.WrongLengthKept | main_test.go:313-315 | "abc" is kept unchanged |
| Scenarios.InvalidCharsKept | main_test.go:318-320 | "Hello@World" is kept unchanged |
| Scenarios.PlainTextKept | main_test.go:336-338 | "plain text" is kept unchanged |
| Scenarios.EmptyStringField | main_test.go:287 | the "empty_string" member stays "" |
| Scenarios.MixedArray | main_test.go:291 | ["SGVsbG8=", "plain text", 123, "VGVzdA=="] decodes to ["Hello", "plain text", 123, "Test"] |
| Scenarios.EdgeCasesDecoder | main_test.go:282-342 | every member TestBase64EdgeCases checks has the value it expects, and the key set is kept |
| Scenarios.EdgeCases | main_test.go:282-342 | the same, on main.go's engine |
| Scenarios.BinaryData | main_test.go:392-422 | on main.go's engine, the Base64 of the binary payload stays as it is, and "SGVsbG8=" becomes "Hello" |
| Scenarios.KeysKept | internal/decoder/decoder.go:65-71 | decoding an object gives an object with the same keys |
| Scenarios.FieldDecodesTo | internal/decoder/decoder.go:65-71 | decoding an object puts under each key the decoding of that key's value |
| Scenarios.ScalarField | internal/decoder/decoder.go:91-94 | a number, boolean or null member is kept as it is |
| Scenarios.OneField | internal/decoder/decoder.go:65-71 | a one-member object decodes to that member decoded |
| Scenarios.TwoFields | internal/decoder/decoder.go:65-71 | a two-member object decodes to both members decoded |
| Scenarios.FourElems | internal/decoder/decoder.go:74-80 | a four-element array decodes element by element, in order |

## Left out

- I/O is not modelled: the CLI code of `main.go` after line 111 (`showUsage`, `getJSONInput`,
  `isStdinEmpty`), `cmd/cli/main.go`, the WASM binding in `cmd/wasm/main.go` and the error
  type in `internal/errors/errors.go` all read input, print or bind to JavaScript.
- JSON parsing and serialisation (`json.Unmarshal`, `json.Marshal`) are foreign library code.
  The parser is the parameter `parse`, and the model requires of it only that it shrinks
  strings. Output formatting and key order are not modelled: Go maps are unordered and
  `Marshal` sorts keys.
- JSON numbers are `real` values that are only passed through. float64 rounding is not modelled.
- The internals of Go's `encoding/base64`, `unicode/utf8` and `strings` are modelled by their
  documented behaviour (RFC 4648 section 4, RFC 3629 section 4, `unicode.IsSpace`) rather than
  by their code.
  - Go's `string(bytes)` conversion, which replaces ill-formed bytes by U+FFFD, is modelled only
    on valid input. That is the only input the engine gives it.
- Go's stack depth is not modelled. The recursion is proved to terminate.
- Aliasing between the input slice and the result is not modelled: the result is a fresh array
  and the input is a `seq`, so the input cannot change.
- What a real JSON parser does with the test texts, such as that "Hello World" or the garbled
  text is not JSON, is not derived. The scenario lemmas (`Scenarios.DecoderTestOutcome`,
  `Scenarios.DistanceDecoded` and the others) take these facts as requirements on `parse`.
- The subprocess tests of `cmd/cli/main_test.go` run the same engine through the CLI. Their
  inputs and outputs are the ones the `main_test.go` scenarios state.
