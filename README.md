# SigV4 canonicalisation helpers, modelled in Dafny

This project models the text-canonicalisation helpers that the AWS SDK for .NET benchmarks
compare against the SDK's own versions. They are the pieces of an AWS Signature Version 4
canonical request:

- the whitespace compressor (`CompressSpace.cs`);
- the percent encoder (`UrlEncode.cs`);
- the canonical header-name list and header block (`CanonicalHeaderNames.cs` and `CanonicalHeaders.cs`);
- the query-parameter canonicaliser (`ParameterAsString.cs`);
- the service-name extractor (`DetermineService.cs`);
- the `", "` list join (`ListJoin.cs`).

Pure code is modelled with functions and lemmas. Code that appends to builders or writes into a
byte buffer is modelled with methods, loops and arrays. Each such method is proved against a
specification function, and the properties the code promises are proved about those functions.

Layout, one module per file:

| file | module | contents |
|---|---|---|
| `wrappers.dfy` | `Wrappers` | `Option` (a C# `null`) and `Result` (a thrown exception) |
| `text.dfy` | `Text` | `char.IsWhiteSpace`, `ToLowerInvariant`, `Trim`, `string.Join`, the header entry |
| `ordering.dfy` | `Ordering` | `StringComparer.Ordinal` and the result of `List<T>.Sort` |
| `compress_space.dfy` | `CompressSpace` | `CompressSpaces` |
| `url_encode.dfy` | `UrlEncode` | scheme tables, hex digits, UTF-8, the in-place encoder `After` |
| `canonical_header_names.dfy` | `CanonicalHeaderNames` | both name-list loops and the `Join` reference |
| `canonical_headers.dfy` | `CanonicalHeaders` | the three header-block loops |
| `parameter_as_string.dfy` | `ParameterAsString` | `ParameterCollection`, its enumeration, `Before` and `After` |
| `determine_service.dfy` | `DetermineService` | `DetermineServiceAfter` |
| `list_join.dfy` | `ListJoin` | the `first`-flag `Join` |

Modelling choices:

- A C# `string` is `seq<char>`. A Dafny `char` is a Unicode scalar value, so a supplementary
  character is one `char`, and C#'s `Length` is modelled as `UrlEncode.Utf16Length`.
- `StringComparer.Ordinal` compares UTF-16 code units. `Ordering.OrdinalLessEq` compares
  per-character keys, and `Ordering.OrdinalIsCodeUnitOrder` proves this is the same order, in
  both directions, as comparing the actual code units.
- The buffer sizes at `UrlEncode.cs:91-96` are C# `int`s and are modelled in 32-bit arithmetic
  (`UrlEncode.Wrap32`). From 357,913,941 UTF-16 units on, `2 * dataByteLength` wraps negative
  and the encoder throws `ArgumentOutOfRangeException` (`UrlEncode.LongTextThrows`). A null
  `data` is `None` and encodes to "" (`UrlEncode.After`).
- Where the code and its evident intent differ, the model follows the code:
  - The header-name loops guard the `;` with `builder.Length > 0`. So leading headers with
    empty names add nothing, not even a separator. The `string.Join` reference at
    `CanonicalHeaderNames.cs:27` would emit a leading `;` for them
    (`CanonicalHeaderNames.GuardedNamesDifferFromJoin`). The two agree whenever the first name
    is non-empty (`CanonicalHeaderNames.GuardedNamesIsJoin`).
  - Canonicalisation needs every value to encode correctly. The buffer sizing at `UrlEncode.cs:92` is
    not enough for some multi-byte text: the encoder then reads its own output and silently
    returns a wrong encoding (`UrlEncode.EuroSignsOutput`); see Findings.

## Model

| member | source | states |
|---|---|---|
| CompressSpace.CompressSpaces | CompressSpace.cs:22-47 | null gives null; any other text gives `Compress` of it, the loop's result under its flag-and-index invariant |
| CompressSpace.Compress | CompressSpace.cs:38-46 | never longer than the input; a non-empty input gives a non-empty output |
| CompressSpace.CompressEnds | CompressSpace.cs:38-46 | the first and last characters survive, as ' ' when they are whitespace |
| CompressSpace.CompressIsCompact | CompressSpace.cs:40-44 | the output has no two adjacent whitespace characters, and every whitespace character in it is ' ' |
| CompressSpace.CompressAppend | CompressSpace.cs:38-46 | compression commutes with concatenation at a cut with non-whitespace on at least one side |
| CompressSpace.CompressAllWhiteSpace | CompressSpace.cs:40-44 | a non-empty all-whitespace text becomes " " |
| CompressSpace.CompressRun | CompressSpace.cs:40-44 | each maximal whitespace run between non-whitespace becomes exactly one ' ' |
| CompressSpace.CompressKeepsNonWhiteSpace | CompressSpace.cs:42 | the non-whitespace characters are kept unchanged and in order |
| CompressSpace.CompressCompact | CompressSpace.cs:38-46 | a compact text is returned unchanged |
| CompressSpace.CompressIdempotent | CompressSpace.cs:22-47 | compressing twice equals compressing once |
| CompressSpace.CompressExample | CompressSpace.cs:22-47 | "Hello,   World!" becomes "Hello, World!" |
| Text.LowerChar | CanonicalHeaderNames.cs:40 | an ASCII upper-case letter is shifted by 32 to lower case; everything else is kept |
| Text.ToLower | CanonicalHeaders.cs:45 | same length; each character is lowered as `LowerChar` says |
| Text.TrimStart | CanonicalHeaders.cs:47 | the result is a suffix that starts with non-whitespace, and everything dropped is whitespace |
| Text.TrimEnd | CanonicalHeaders.cs:47 | the result is a prefix that ends with non-whitespace, and everything dropped is whitespace |
| Text.JoinSnoc | ListJoin.cs:26 | joining a non-empty list plus one more element adds the separator and that element |
| Text.JoinLength | ListJoin.cs:26 | the joined length is the sum of the element lengths plus one separator per gap |
| Text.IsWhiteSpace | CompressSpace.cs:40 | `char.IsWhiteSpace` over the fixed .NET set: U+0009..U+000D, U+0020, U+0085, U+00A0, U+1680, U+2000..U+200A, U+2028, U+2029, U+202F, U+205F, U+3000 |
| Text.Trim | CanonicalHeaders.cs:47 | `string.Trim()`: `TrimEnd` of `TrimStart`, whose contracts state what each end keeps |
| Text.Join | CanonicalHeaderNames.cs:27 | `string.Join`: the elements in order with the separator between neighbours, none before the first or after the last (`JoinSnoc`, `JoinLength`) |
| UrlEncode.TryGetRFCEncodingSchemes | UrlEncode.cs:56-72 | a set exists exactly for 3986 and 1738; 3986 gives line 29's set and 1738 gives line 35's |
| UrlEncode.ValidUrlCharactersExactly | UrlEncode.cs:29 | the line-29 set holds exactly the RFC 3986 unreserved characters |
| UrlEncode.Rfc1738Exactly | UrlEncode.cs:35 | the line-35 set holds exactly the line-29 characters other than '~' |
| UrlEncode.Rfc1738Prefix | UrlEncode.cs:29-35 | the line-29 constant is the line-35 constant followed by "~" |
| UrlEncode.UnreservedCharacters | UrlEncode.cs:82-86 | the scheme's set, RFC 3986's for an unknown number, followed by the path characters when `path` is set (`UnknownSchemeFallsBack`, `UnreservedIsAscii`) |
| UrlEncode.UnknownSchemeFallsBack | UrlEncode.cs:83-84 | any other RFC number encodes with RFC 3986's set |
| UrlEncode.ValidUrlCharactersUnreserved | UrlEncode.cs:29 | every character of the constant is unreserved in the sense of section 2.3 of RFC 3986 |
| UrlEncode.UnreservedInValidUrlCharacters | UrlEncode.cs:29 | every RFC 3986 unreserved character is in the constant |
| UrlEncode.SchemeCharacterSets | UrlEncode.cs:29-35 | line 29 is exactly the unreserved set; line 35 is it without '~'; both are ASCII and lack '%' |
| UrlEncode.ToUpperHex | UrlEncode.cs:125-131 | a nibble becomes an upper-case hex digit whose value is the nibble |
| UrlEncode.ToUpperHexBijective | UrlEncode.cs:125-131 | 0..15 map one to one, in order, onto "0123456789ABCDEF", and the map is inverted by `HexValue` |
| UrlEncode.Utf8Char | UrlEncode.cs:97 | one to four bytes, at most three per UTF-16 unit; ASCII is its own byte; non-ASCII bytes are all 0x80 or above |
| UrlEncode.Utf8 | UrlEncode.cs:97 | `GetBytes`: the characters' UTF-8 bytes in order (`Utf8Bound`, `Utf8Ascii`, `Utf8ThreeByte`, `Utf8Repeat`) |
| UrlEncode.Utf8Bound | UrlEncode.cs:91 | the UTF-8 bytes never exceed `GetMaxByteCount` of the UTF-16 length |
| UrlEncode.MaxByteCount | UrlEncode.cs:91 | `Encoding.UTF8.GetMaxByteCount(n)` is `3 * (n + 1)`; `Utf8Bound` proves the UTF-8 bytes fit in it |
| UrlEncode.MaxByteCountLimit | UrlEncode.cs:91 | `GetMaxByteCount` stays within `int` exactly below 715,827,882 UTF-16 units; beyond that it throws |
| UrlEncode.Wrap32 | UrlEncode.cs:92 | unchecked `int` arithmetic: the result is in the `int` range, equals the input inside it, and is the input minus 2^32 just above it |
| UrlEncode.AsSpan | UrlEncode.cs:88 | `AsSpan` of null is the empty span; `After` and `AfterResized` give "" for null (`EmptyEncodedAsWritten`) |
| UrlEncode.Utf8Ascii | UrlEncode.cs:97 | ASCII text has one byte per character, and the byte is the character |
| UrlEncode.Utf8ThreeByte | UrlEncode.cs:97 | text of U+0800..U+FFFF has three bytes per character, all 0x80 or above |
| UrlEncode.EncodedLength | UrlEncode.cs:100-115 | the output holds each byte once plus two hex digits per escaped byte, so at most three times the input |
| UrlEncode.EncodeByte | UrlEncode.cs:101-115 | one byte: itself when it is an unreserved character, otherwise '%' and its two upper-case hex nibbles (`EncodedLength`, `HighByteEscaped`, `DecodeEncodedByte`) |
| UrlEncode.EncodeBytesAppend | UrlEncode.cs:100-115 | encoding distributes over concatenation of byte sequences |
| UrlEncode.EncodeBytes | UrlEncode.cs:100-115 | the bytes' encodings one after another (`EncodeBytesAppend`, `EncodedLength`, `EncodedAlphabet`, `DecodeEncodeBytes`) |
| UrlEncode.Encode | UrlEncode.cs:75-123 | the intended result: the encoded UTF-8 bytes read as ASCII text; percent-decoding it gives the UTF-8 bytes back (`EncodeRoundTrip`) |
| UrlEncode.ToChars | UrlEncode.cs:117 | `GetString` of an ASCII front: one character per byte, with the byte's value; the front is ASCII by `InPlaceFrontAscii` |
| UrlEncode.HighByteEscaped | UrlEncode.cs:101-115 | with an ASCII set, a byte of 0x80 or above always becomes a three-byte escape |
| UrlEncode.HighBytesTriple | UrlEncode.cs:100-115 | bytes that are all 0x80 or above triple in length |
| UrlEncode.EncodedAlphabet | UrlEncode.cs:100-117 | every output character is unreserved, '%' or an upper-case hex digit, and is ASCII |
| UrlEncode.DecodeEncodedByte | UrlEncode.cs:101-115 | percent-decoding one encoded byte gives that byte back |
| UrlEncode.DecodeEncodeBytes | UrlEncode.cs:100-117 | percent-decoding the output recovers exactly the encoded bytes |
| UrlEncode.EncodeRoundTrip | UrlEncode.cs:75-123 | for any scheme and path flag, percent-decoding the result gives the UTF-8 bytes of the input |
| UrlEncode.DetermineValidPathCharacters | UrlEncode.cs:42-54 | the loop yields `PathCharacters`: the base characters that escape to themselves, in order |
| UrlEncode.KeptByEscapingMembers | UrlEncode.cs:47-52 | a character is kept exactly when it is in the input and escapes to itself |
| UrlEncode.PathCharactersShape | UrlEncode.cs:40-54 | the path set is exactly the members of "/:'()!*[]$" that escape to themselves; it is ASCII without '%' |
| UrlEncode.UnreservedIsAscii | UrlEncode.cs:82-86 | for every scheme and path flag the unreserved set is ASCII and lacks '%' |
| UrlEncode.PathOffIgnoresPathCharacters | UrlEncode.cs:86 | with `path` false the path characters do not affect the result |
| UrlEncode.EncodedByteLength | UrlEncode.cs:92 | the request as written, `2 * dataByteLength` in `int`: exact while it fits, negative once it exceeds `int.MaxValue` |
| UrlEncode.EncodedByteLengthLimit | UrlEncode.cs:92 | the request fits in `int` exactly below 357,913,941 UTF-16 units |
| UrlEncode.BufferLength | UrlEncode.cs:93-95 | 256 bytes on the stack for a request up to 256, a negative one included, otherwise a pooled array of the requested size |
| UrlEncode.InitialBuffer | UrlEncode.cs:96-97 | the buffer before the loop: its length is the buffer length, and the UTF-8 bytes sit at the start of the last `GetMaxByteCount` bytes |
| UrlEncode.InPlaceLoop | UrlEncode.cs:99-115 | the loop on the live buffer: each read sees earlier writes; the result is the front or `IndexOutOfRangeException` (`InPlaceStep`, `InPlaceOutOfRoom`, `InPlaceEncodes`, `FrontMismatch`, `InPlaceFrontAscii`, `EncodeInPlace`) |
| UrlEncode.EncodeInBuffer | UrlEncode.cs:88-117 | the loop on a buffer of a given length set up as lines 93-97 do, its front read back as text (`EncodeThroughBuffer`, `BufferFitsEncodes`, `ThreeByteTextEncodedIff`) |
| UrlEncode.InPlaceStep | UrlEncode.cs:100-115 | one step of the loop: the byte at `tail + i` is read from the buffer as it is now, and its encoding is written at `index` |
| UrlEncode.InPlaceOutOfRoom | UrlEncode.cs:103-114 | a step whose encoding does not fit in the rest of the buffer throws `IndexOutOfRangeException` |
| UrlEncode.InPlacePrefix | UrlEncode.cs:99-115 | while every read comes before the writes reach it, the first k steps leave the encoding of the first k original bytes at the front and the unread bytes untouched |
| UrlEncode.FrontMismatch | UrlEncode.cs:99-117 | later steps write only at or after `index`, so a front byte that differs from a candidate result rules that result out |
| UrlEncode.EncodeByteAscii | UrlEncode.cs:101-115 | with an ASCII unreserved set every byte's encoding is ASCII |
| UrlEncode.InPlaceFrontAscii | UrlEncode.cs:99-117 | whatever the loop reads, its own output included, a front that is ASCII so far is ASCII when it returns, so `GetString` reads one character per byte |
| UrlEncode.EncodeInBufferAscii | UrlEncode.cs:96-117 | the text read back from any buffer is ASCII |
| UrlEncode.InPlaceEncodes | UrlEncode.cs:99-117 | when every read comes before the writes reach it and the encoding fits, the loop returns the encoding of the original bytes |
| UrlEncode.Overtaken | UrlEncode.cs:99-115 | when the first byte that the writes reach before it is read was 0x80 or above, the loop does not return the encoding: it reads an ASCII output byte where an escaped byte stood |
| UrlEncode.FitsWithRoom | UrlEncode.cs:96-115 | when the tail starts at least twice the byte count into the buffer, writes never overtake reads |
| UrlEncode.BufferFitsEncodes | UrlEncode.cs:96-117 | when the buffer fits, the loop on the buffer as the code sets it up returns the encoding of the UTF-8 bytes, read back as ASCII |
| UrlEncode.AsciiBufferFits | UrlEncode.cs:91-96 | the sizing as written is enough for ASCII text below 357,913,941 characters |
| UrlEncode.EncodeAsWritten | UrlEncode.cs:75-123 | the code as written: `ArgumentOutOfRangeException` when `GetMaxByteCount` or the slice of line 96 throws, otherwise the loop on the buffer (`After`, `AsWrittenFitsEncodes`, `LongTextThrows`, `ThreeByteTextMisencoded`) |
| UrlEncode.AsWrittenFitsEncodes | UrlEncode.cs:75-123 | when the sizing as written fits, the code as written returns `Encode` of the input |
| UrlEncode.LongTextThrows | UrlEncode.cs:91-96 | text of 357,913,941 UTF-16 units or more does not fit and throws `ArgumentOutOfRangeException` |
| UrlEncode.AsciiEncodedAsWritten | UrlEncode.cs:75-123 | the code as written returns `Encode` of every ASCII text below 357,913,941 characters |
| UrlEncode.AsWrittenOutputAscii | UrlEncode.cs:75-123 | whatever the code as written returns is ASCII text, right encoding or not |
| UrlEncode.EmptyEncodedAsWritten | UrlEncode.cs:75-123 | the empty text, and so a null `data`, gives "" |
| UrlEncode.HighBytesWritesBehindIff | UrlEncode.cs:99-115 | for bytes that are all escaped, every read comes before the writes reach it exactly when the tail starts at least `2m - 2` bytes in, for m bytes |
| UrlEncode.HighBytesMisencoded | UrlEncode.cs:96-115 | bytes that are all escaped, in a tail that starts fewer than `2m - 2` bytes in, are misencoded: the loop's result differs from their encoding |
| UrlEncode.ThreeByteTextFitsIff | UrlEncode.cs:91-115 | for text of three-byte characters, a buffer of any length fits exactly when it holds nine bytes per character plus one |
| UrlEncode.ThreeByteTextEncodedIff | UrlEncode.cs:91-117 | for text of three-byte characters, the loop on a buffer of any length returns the correct encoding exactly when the buffer holds nine bytes per character plus one |
| UrlEncode.ThreeByteTextIff | UrlEncode.cs:91-117 | both thresholds at once, for a given expected encoding |
| UrlEncode.ThreeByteTextMisencoded | UrlEncode.cs:75-123 | with a pooled array of exactly the requested size, the code as written does not return `Encode` of 29 or more characters in U+0800..U+FFFF: a wrong encoding or an exception; on the stack path that is 29 to 41 characters |
| UrlEncode.EuroSignsMisencoded | UrlEncode.cs:75-123 | 29 euro signs do not fit the 256-byte stack buffer and are misencoded |
| UrlEncode.EuroSignsOutput | UrlEncode.cs:75-123 | the code as written returns, without an exception, 28 escapes "%E2%82%AC" followed by "ACA" for 29 euro signs |
| UrlEncode.EuroSignsEncoding | UrlEncode.cs:75-123 | the correct encoding of 29 euro signs is 29 escapes "%E2%82%AC" |
| UrlEncode.EuroSignsLoop | UrlEncode.cs:99-115 | the loop on the 256-byte stack buffer holding 29 euro signs at offset 166 returns 28 escapes and the bytes "ACA" |
| UrlEncode.EuroSignsLastSteps | UrlEncode.cs:100-104 | the last three reads find the output bytes 'A', 'C' and 'A' already written there, and each is copied |
| UrlEncode.CopyStep | UrlEncode.cs:101-104 | a step that reads an unreserved byte copies it to `index` and moves on by one |
| UrlEncode.EuroSignEscape | UrlEncode.cs:97-115 | U+20AC is E2 82 AC in UTF-8 and is escaped as "%E2%82%AC" |
| UrlEncode.Utf8Repeat | UrlEncode.cs:97 | a text of one repeated character has that character's UTF-8 bytes repeated |
| UrlEncode.EncodeRepeat | UrlEncode.cs:100-115 | encoding a repeated byte sequence repeats its encoding |
| UrlEncode.EuroSignsFitRoundedArray | UrlEncode.cs:91-117 | 42 euro signs request 258 bytes and are encoded correctly in the 512-byte array a power-of-two pool returns |
| UrlEncode.EuroSignsMisencodedRoundedArray | UrlEncode.cs:91-117 | 57 euro signs request 348 bytes and are misencoded even in a 512-byte array |
| UrlEncode.ResizedEncodedByteLength | UrlEncode.cs:92 | the corrected request `3 * dataByteLength` in `int`: exact while it fits, below `dataByteLength` once it wraps |
| UrlEncode.ResizedEncodedByteLengthLimit | UrlEncode.cs:92 | the corrected request fits in `int` exactly below 238,609,294 UTF-16 units |
| UrlEncode.ResizedBufferFits | UrlEncode.cs:91-96 | three times `GetMaxByteCount` is enough for every text below 238,609,294 UTF-16 units |
| UrlEncode.WriteEncoded | UrlEncode.cs:101-115 | one byte's encoding is written at `index`, and nothing after it changes |
| UrlEncode.EncodeInPlace | UrlEncode.cs:99-115 | no precondition on the sizing: the result and the buffer front are those of `InPlaceLoop` on the original buffer, including the misencoding and the exception |
| UrlEncode.EncodeThroughBuffer | UrlEncode.cs:88-117 | for any buffer the slice at line 96 allows, the result is `EncodeInBuffer`: the loop run on the buffer as lines 93-97 set it up |
| UrlEncode.After | UrlEncode.cs:75-123 | no precondition, null `data` included: the result is `EncodeAsWritten` of the input, "" for null; this is `Encode` of the input when the buffer fits (`AsWrittenFitsEncodes`), a wrong encoding for some multi-byte text, and `ArgumentOutOfRangeException` from 357,913,941 UTF-16 units on |
| UrlEncode.AfterResized | UrlEncode.cs:75-123 | with the corrected sizing, null `data` included: `Encode` of the input below 238,609,294 UTF-16 units, "" for null, and `ArgumentOutOfRangeException` from there on |
| CanonicalHeaderNames.LowerKeys | CanonicalHeaderNames.cs:27 | one lower-cased key per header, in order |
| CanonicalHeaderNames.JoinedNames | CanonicalHeaderNames.cs:27 | the `Join` benchmark: the lowered keys joined with ";", the reference the loops are compared with |
| CanonicalHeaderNames.GuardedNames | CanonicalHeaderNames.cs:32-44 | the builder after the loop: ";" only once the builder is non-empty, then the lowered key (`GuardedNamesJoin`, `GuardedNamesIsJoin`) |
| CanonicalHeaderNames.DropLeadingEmptyKeys | CanonicalHeaderNames.cs:38-40 | a suffix that starts with a non-empty key, and everything dropped has an empty key |
| CanonicalHeaderNames.CanonicalizeHeaderNames | CanonicalHeaderNames.cs:32-44 | the lower-cased keys joined by ';', after the leading empty keys |
| CanonicalHeaderNames.CanonicalizeHeaderNamesValueStringBuilder | CanonicalHeaderNames.cs:46-58 | the same result as the `StringBuilder` loop |
| CanonicalHeaderNames.DropLeadingSnoc | CanonicalHeaderNames.cs:36-41 | how one more header changes the remaining suffix |
| CanonicalHeaderNames.GuardedNamesEmpty | CanonicalHeaderNames.cs:38 | the list is empty exactly when every key is empty |
| CanonicalHeaderNames.GuardedNamesJoin | CanonicalHeaderNames.cs:36-41 | the guarded loop is the ';'-join of the lower-cased keys after the leading empty ones |
| CanonicalHeaderNames.GuardedNamesIsJoin | CanonicalHeaderNames.cs:27 | when the first key is non-empty, the loop equals the `string.Join` reference |
| CanonicalHeaderNames.GuardedNamesDifferFromJoin | CanonicalHeaderNames.cs:27 | keys "" and "a" give "a" from the loop and ";a" from the reference |
| CanonicalHeaderNames.GuardedNamesLowerCase | CanonicalHeaderNames.cs:40 | no ASCII upper-case letter remains |
| CanonicalHeaderNames.GuardedNamesLead | CanonicalHeaderNames.cs:38-40 | a non-empty list starts with the first non-empty lower-cased key, with no leading ';' |
| CanonicalHeaders.AppendLine | CanonicalHeaders.cs:45-48 | one iteration appends `key:` plus the compressed, trimmed value plus a newline |
| CanonicalHeaders.ValueSegment | CanonicalHeaders.cs:47 | a null value adds nothing; any other value adds its compressed, trimmed text (`ValueSegmentClean`) |
| CanonicalHeaders.CanonicalLine | CanonicalHeaders.cs:45-48 | the lowered key, ':', the value segment and "\n" |
| CanonicalHeaders.CanonicalBlock | CanonicalHeaders.cs:42-49 | the lines of all headers in input order (`CanonicalBlockSnoc`, `CanonicalBlockEnds`, `CanonicalBlockExample`, and the three methods proved equal to it) |
| CanonicalHeaders.CanonicalizeHeaders | CanonicalHeaders.cs:35-51 | null gives ""; otherwise one canonical line per header, in input order |
| CanonicalHeaders.CanonicalizeHeadersValueStringBuilder | CanonicalHeaders.cs:53-74 | the same as `CanonicalizeHeaders` |
| CanonicalHeaders.CanonicalizeHeadersValueStringBuilderAndCompressSpaces | CanonicalHeaders.cs:76-97 | the same, using this project's compressor |
| CanonicalHeaders.CanonicalBlockSnoc | CanonicalHeaders.cs:42-49 | one more header adds exactly its line at the end |
| CanonicalHeaders.CanonicalBlockEnds | CanonicalHeaders.cs:45-48 | a non-empty block ends with a newline; a null value gives `key:` and a newline |
| CanonicalHeaders.CompactInfix | CanonicalHeaders.cs:47 | every infix of a compact text is compact |
| CanonicalHeaders.TrimEnds | CanonicalHeaders.cs:47 | a trimmed text neither starts nor ends with whitespace |
| CanonicalHeaders.TrimCompact | CanonicalHeaders.cs:47 | trimming keeps a compact text compact |
| CanonicalHeaders.ValueSegmentClean | CanonicalHeaders.cs:47 | a value segment has no leading or trailing whitespace and no whitespace run |
| CanonicalHeaders.CanonicalBlockExample | CanonicalHeaders.cs:45-48 | "Content-Type: text/plain   charset=utf-8" canonicalises to "content-type:text/plain charset=utf-8" and a newline |
| ListJoin.Texts | ListJoin.cs:26 | null elements read as "", one per element |
| ListJoin.AsText | ListJoin.cs:26 | a null element reads as "", any other as itself (`Texts`, `Join`) |
| ListJoin.Join | ListJoin.cs:28-42 | the first-flag loop equals `string.Join(", ", strings)` on every list |
| ListJoin.JoinStep | ListJoin.cs:32-39 | one more element adds ", " and the element, except to an empty list |
| ListJoin.JoinShape | ListJoin.cs:30-41 | empty gives ""; one element gives itself; the length is the element lengths plus 2 per gap |
| Ordering.CharKeyInjective | ParameterAsString.cs:85 | different characters have different ordinal keys |
| Ordering.OrdinalLessEq | ParameterAsString.cs:85 | `StringComparer.Ordinal`: a total order (`OrdinalReflexive`, `OrdinalAntisymmetric`, `OrdinalTransitive`, `OrdinalTotal`) that is the UTF-16 code-unit order (`OrdinalIsCodeUnitOrder`) |
| Ordering.OrdinalReflexive | ParameterAsString.cs:85 | ordinal order is reflexive |
| Ordering.OrdinalAntisymmetric | ParameterAsString.cs:85 | ordinal order is antisymmetric |
| Ordering.OrdinalTransitive | ParameterAsString.cs:85 | ordinal order is transitive |
| Ordering.OrdinalTotal | ParameterAsString.cs:85 | ordinal order is total |
| Ordering.OrdinalPrefix | ParameterAsString.cs:85 | a prefix sorts no later than its extensions |
| Ordering.OrdinalIsCodeUnitOrder | ParameterAsString.cs:85 | the key order holds exactly when the UTF-16 code units compare lexicographically |
| Ordering.UnitsCommonPrefix | ParameterAsString.cs:85 | a common code-unit prefix does not change the comparison |
| Ordering.CharUnitsDecide | ParameterAsString.cs:85 | two different characters compare in code-unit order exactly as their keys do |
| Ordering.Utf16Char | ParameterAsString.cs:85 | a character has one or two UTF-16 code units |
| Ordering.InsertSortedCorrect | ParameterAsString.cs:140 | inserting into a sorted list keeps it sorted and adds exactly that element |
| Ordering.SortBy | ParameterAsString.cs:140-146 | `List<T>.Sort`: sorted and a permutation (`SortByCorrect`), the only such list (`SortedUnique`), idempotent (`SortIdempotent`) |
| Ordering.SortByCorrect | ParameterAsString.cs:139-148 | the sorted list is sorted and a permutation of the input |
| Ordering.SortedUnique | ParameterAsString.cs:139-148 | two sorted permutations of the same elements are equal |
| Ordering.SortSorted | ParameterAsString.cs:139-148 | sorting a sorted list changes nothing |
| Ordering.SortIdempotent | ParameterAsString.cs:139-148 | sorting twice equals sorting once |
| Ordering.OrdinalTotalOrder | ParameterAsString.cs:140 | the ordinal comparer is a total order |
| Ordering.RealTotalOrder | ParameterAsString.cs:146 | the numeric comparer is a total order |
| ParameterAsString.InsertParameterCorrect | ParameterAsString.cs:79-85 | inserting a new key keeps names strictly ordered and adds exactly that entry and key |
| ParameterAsString.InsertParameter | ParameterAsString.cs:79-85 | where `SortedDictionary.Add` puts a new key: the order stays strict and exactly that entry is added (`InsertParameterCorrect`) |
| ParameterAsString.KeysCons | ParameterAsString.cs:79 | the keys of a consed sequence are its head's name plus the tail's keys |
| ParameterAsString.OrderedTail | ParameterAsString.cs:79-85 | a strictly ordered collection's tail is ordered and lies above its head |
| ParameterAsString.BelowFirst | ParameterAsString.cs:79-85 | a name below the first can be put at the front |
| ParameterAsString.AboveHead | ParameterAsString.cs:79-85 | a head below every later name keeps the order |
| ParameterAsString.ParameterCollection.constructor | ParameterAsString.cs:84-85 | a new collection is empty |
| ParameterAsString.ParameterCollection.Add | ParameterAsString.cs:79-85 | a new key is added exactly once, keeping the order; a present key changes nothing and reports false |
| ParameterAsString.ParameterCollection.AddString | ParameterAsString.cs:92-95 | adds a string value, as `Add` does |
| ParameterAsString.ParameterCollection.AddStringList | ParameterAsString.cs:102-105 | adds a string-list value, as `Add` does |
| ParameterAsString.ParameterCollection.AddDoubleList | ParameterAsString.cs:112-115 | adds a number-list value, as `Add` does |
| ParameterAsString.ParameterCollection.YieldEntry | ParameterAsString.cs:133-152 | one entry's pairs or its exception; its list is sorted where it is stored |
| ParameterAsString.ParameterCollection.GetParametersEnumerable | ParameterAsString.cs:126-154 | the result is `Enumerate` of the old entries; the lists it reached are left sorted; the order is kept |
| ParameterAsString.ParameterCollection.GetSortedParametersList | ParameterAsString.cs:121-124 | the same pairs and new state as the enumeration |
| ParameterAsString.FirstUnsupported | ParameterAsString.cs:150-151 | the index of the first unsupported entry, or the length |
| ParameterAsString.SortValue | ParameterAsString.cs:138-148 | string and number lists are sorted, by ordinal and numeric order; other values are unchanged (`SortValueIdempotent`) |
| ParameterAsString.EntryResult | ParameterAsString.cs:133-152 | an unsupported value throws `AmazonClientException` naming its type; any other value yields its pairs, its list sorted |
| ParameterAsString.Enumerate | ParameterAsString.cs:126-154 | the pairs of the entries in order, or the exception of the first unsupported one (`EnumerateStopsAtFailure`, `EnumerateFailsIffUnsupported`, `EnumerateKeysOrdered`, `PairsOfKey`) |
| ParameterAsString.EnumerateStopsAtFailure | ParameterAsString.cs:150-151 | once a prefix throws, the whole enumeration throws the same exception |
| ParameterAsString.SortListsStopsAtFailure | ParameterAsString.cs:128-153 | sorted entries before the first unsupported one and untouched ones after it are `SortLists` |
| ParameterAsString.SortListsKeepsNames | ParameterAsString.cs:139-148 | sorting the lists keeps every name, hence the strict key order |
| ParameterAsString.SortLists | ParameterAsString.cs:128-153 | the entries after an enumeration: lists sorted up to the first unsupported entry, later ones untouched (`SortListsStopsAtFailure`, `SortListsKeepsNames`) |
| ParameterAsString.ValuePairsKeys | ParameterAsString.cs:136-148 | every pair of an entry has the entry's name as key |
| ParameterAsString.EnumerateFailsIffUnsupported | ParameterAsString.cs:150-151 | the enumeration throws exactly when some value is unsupported, with the first such type in the message |
| ParameterAsString.KeysBounded | ParameterAsString.cs:128-153 | no pair's key is above a bound on all names |
| ParameterAsString.EnumerateKeysOrdered | ParameterAsString.cs:128-153 | pair keys come in ascending ordinal order |
| ParameterAsString.WithKeyConcat | ParameterAsString.cs:128-153 | selecting the pairs of one key distributes over concatenation |
| ParameterAsString.WithKeyUniform | ParameterAsString.cs:128-153 | selecting a key shared by every pair keeps them all; a key in no pair gives none |
| ParameterAsString.LastNameFresh | ParameterAsString.cs:79-85 | the last name of an ordered collection occurs nowhere before it |
| ParameterAsString.PairsOfKey | ParameterAsString.cs:128-153 | the pairs under each name are exactly that entry's pairs with its list sorted; an absent name has none |
| ParameterAsString.PairsOfAbsentKey | ParameterAsString.cs:128-153 | a name no entry holds yields no pairs |
| ParameterAsString.PairsOfPresentKey | ParameterAsString.cs:128-153 | in a strictly ordered collection, the pairs under an entry's name are that entry's value pairs, its list sorted, and nothing from the other entries |
| ParameterAsString.EnumerateStep | ParameterAsString.cs:128-153 | entry `k` either turns the enumeration into its exception or appends its pairs to the ones before it |
| ParameterAsString.StringListPairs | ParameterAsString.cs:139-142 | a string list gives one pair per element, ordinally ascending, with exactly the list's elements |
| ParameterAsString.DoubleListPairs | ParameterAsString.cs:144-148 | a number list gives one formatted pair per element, in ascending numeric order |
| ParameterAsString.SortValueIdempotent | ParameterAsString.cs:139-148 | sorting a stored list again changes nothing |
| ParameterAsString.EnumerateCongruent | ParameterAsString.cs:128-153 | entries with equal per-entry results enumerate equally |
| ParameterAsString.EnumerateTwice | ParameterAsString.cs:139-148 | a second enumeration yields the same pairs and leaves the collection as the first one did |
| ParameterAsString.EnumerateExample | ParameterAsString.cs:135-142 | {a: null, b: ["y", "x"]} yields (a, null), (b, "x"), (b, "y") |
| ParameterAsString.Fields | ParameterAsString.cs:43-48 | at most one field per pair, and each field contains '=' |
| ParameterAsString.AppendedConcat | ParameterAsString.cs:39-50 | the builder text distributes over concatenation of pair lists |
| ParameterAsString.AppendedIsJoin | ParameterAsString.cs:51-55 | the builder is empty exactly when there is no field; otherwise it is the '&'-joined fields plus one '&' |
| ParameterAsString.JoinNonEmpty | ParameterAsString.cs:72-73 | a join whose first element is non-empty is non-empty |
| ParameterAsString.FieldsEmpty | ParameterAsString.cs:43 | there are no fields exactly when every value is null |
| ParameterAsString.CanonicalQueryEmpty | ParameterAsString.cs:51-55 | the query is empty exactly when every value is null |
| ParameterAsString.CanonicalQuery | ParameterAsString.cs:43-55 | the `key=encoded` fields of the valued pairs joined by '&' (`CanonicalQueryEmpty`, `AppendedIsJoin`, `GetParametersAsStringBefore`) |
| ParameterAsString.AppendedStep | ParameterAsString.cs:39-50 | one more pair appends exactly that pair's text |
| ParameterAsString.AppendPair | ParameterAsString.cs:43-49 | a pair with a value appends `key=encoded&`; a null value appends nothing |
| ParameterAsString.AppendPairs | ParameterAsString.cs:39-50 | the loop appends the text of every pair, in order |
| ParameterAsString.GetParametersAsStringBefore | ParameterAsString.cs:34-56 | the '&'-joined fields of the enumeration, or its exception; the lists are left sorted |
| ParameterAsString.GetParametersAsStringAfter | ParameterAsString.cs:58-74 | exactly what `Before` gives, and the same new collection state |
| DetermineService.IndexOf | DetermineService.cs:23 | the first occurrence of the pattern, or -1 when there is none |
| DetermineService.IndexOfFrom | DetermineService.cs:23 | the first occurrence at or after a start position, or -1 |
| DetermineService.IndexOfChar | DetermineService.cs:27-33 | -1 exactly when the character is absent; otherwise the first position of it |
| DetermineService.SearchWindow | DetermineService.cs:21-25 | null gives ""; otherwise the text after the first "//", or the whole text without one (`SearchWindowAfterFirstDoubleSlash`, `SearchWindowWhole`) |
| DetermineService.CutAtHyphen | DetermineService.cs:33-37 | a prefix of the part; any '-' left in it is its first character |
| DetermineService.EqualsIgnoreCase | DetermineService.cs:40 | `OrdinalIgnoreCase` on ASCII letters: equal lengths and equal letters after lower-casing (`EqualsIgnoreCaseLower`) |
| DetermineService.EqualsIgnoreCaseLower | DetermineService.cs:40 | ignoring case is comparing the lower-cased texts, in both directions |
| DetermineService.DetermineServiceAfter | DetermineService.cs:19-41 | "" without a '.' in the window; never contains '.'; anything other than "sqs" is a prefix of the window with no '-' after position 0 |
| DetermineService.SearchWindowAfterFirstDoubleSlash | DetermineService.cs:23-25 | the window starts right after the first "//"; later ones stay in it |
| DetermineService.SearchWindowWhole | DetermineService.cs:23-25 | without "//" the window is the whole input |
| DetermineService.ServiceFromFirstDot | DetermineService.cs:27-40 | the candidate is the window before its first '.', cut at a '-' past position 0; "queue" in any case gives "sqs" |
| DetermineService.CutAtHyphenShape | DetermineService.cs:33-37 | no '-' or a leading '-' keeps the part; otherwise the part is cut before its first '-' |
| DetermineService.NoSlashNoDoubleSlash | DetermineService.cs:23 | text without '/' contains no "//" |
| DetermineService.ServiceOfParts | DetermineService.cs:19-41 | `scheme//name.rest` gives the cut `name`, or "sqs" for "queue" |
| DetermineService.ServiceOfHost | DetermineService.cs:19-41 | `name.rest` without '/' gives the cut `name`, or "sqs" for "queue" |
| DetermineService.CutAtFirstHyphen | DetermineService.cs:33-37 | `a-b` with a non-empty, hyphen-free `a` is cut to `a` |
| DetermineService.ExampleQueue | DetermineService.cs:19-40 | "queue.amazonaws.com" gives "sqs" |
| DetermineService.ExampleSns | DetermineService.cs:19-40 | "https://sns.us-west-2.amazonaws.com" gives "sns" |
| DetermineService.ExampleS3 | DetermineService.cs:19-40 | "https://s3.amazonaws.com" gives "s3" |
| DetermineService.ExampleS3External | DetermineService.cs:19-40 | "https://s3-external-1.amazonaws.com" gives "s3" |
| DetermineService.ExampleNoDot | DetermineService.cs:19-30 | "", "notanurl" and null give "" |
| DetermineService.ExampleLeadingHyphen | DetermineService.cs:33-37 | "-x.y" gives "-x": a hyphen at position 0 does not cut |

## Left out

- `StreamCopy.cs`: stream read, write and copy plumbing over foreign I/O, with no logic to model.
- The BenchmarkDotNet scaffolding is left out: attributes, `[Params]`, `GlobalSetup`, the value generators, and the `Before()`/`After()` wrappers that only forward.
- `AWSSDKUtils.*` (not part of this model):
  - `AWSSDKUtils.CompressSpaces` is taken to be this project's compressor.
  - `AWSSDKUtils.UrlEncode(value, false)` is a different routine. Its result is taken to be `UrlEncode.Encode(3986, value, false, …)`, the text both encoders aim for. `ParameterAsString.AppendPair` appends `UrlEncode.Encode` of the value, so the canonical query string does not inherit the sizing finding.
- `Uri.EscapeUriString` is a foreign call. It is a parameter `escapeUriString: string -> string`, and the path set is derived from it once.
- `Encoding.UTF8` is a plain code-point encoder. Lone surrogates cannot occur, because a Dafny `char` is a scalar value, so replacement characters are not modelled.
- `ArrayPool` rent and return, `stackalloc` and `SkipLocalsInit` are left out. `UrlEncode.After` takes the pool to return exactly the requested size, the tightest case. `ArrayPool.Rent` may return a larger array (in practice the next power of two), and then which inputs are misencoded depends on that size (`UrlEncode.ThreeByteTextEncodedIff` decides it for every size). Builders are sequence appends.
- UrlEncode.EncodeInPlace: the buffer starts zeroed, although `stackalloc` under `SkipLocalsInit` leaves it uninitialised. The loop reads only bytes that `GetBytes` or the loop itself wrote, so the result does not depend on this. The room for a byte's encoding is checked before its first byte is written, not at the write that throws; the buffer is not used after the exception.
- `char.IsWhiteSpace` is given the fixed .NET whitespace set. Other Unicode tables are not modelled.
- `ToLowerInvariant` is modelled as ASCII lowering, and `OrdinalIgnoreCase` as ASCII case-insensitive comparison. Non-ASCII case mappings are left out.
- Doubles are `real`; `ToString(CultureInfo.InvariantCulture)` is a parameter `format: real -> string`. NaN, infinities, signed zero and rounding are left out.
- ParameterAsString.ParameterCollection.Add: a duplicate key returns `false` and changes nothing, where `SortedDictionary.Add` throws `ArgumentException`. A null key, which throws `ArgumentNullException`, cannot occur.
- ParameterAsString.ParameterCollection.AddString: goes through `Add`, so a duplicate key returns `false` and changes nothing instead of throwing `ArgumentException`.
- ParameterAsString.ParameterCollection.AddStringList: goes through `Add`, so a duplicate key returns `false` and changes nothing instead of throwing `ArgumentException`.
- ParameterAsString.ParameterCollection.AddDoubleList: goes through `Add`, so a duplicate key returns `false` and changes nothing instead of throwing `ArgumentException`.
- ParameterAsString.EnumerateFailsIffUnsupported: a null `ParameterValue`, which the inherited `Add(string, ParameterValue)` and the indexer accept, is not modelled. Enumerating one reaches `default:` (`ParameterAsString.cs:150-151`), where `value.GetType()` throws `NullReferenceException` rather than `AmazonClientException`. The same holds for `ParameterAsString.ParameterCollection.GetParametersEnumerable` and both `GetParametersAsString` variants.
- ParameterAsString.ParameterCollection.GetParametersEnumerable: the lazy iterator is run to completion in one call. In `GetParametersAsStringAfter` the per-entry steps are interleaved with the appends, as the lazy enumeration does. A caller that stops an enumeration early is not modelled.
- Lists are stored by value. A caller that keeps a reference to a `List` it added, and sees it sorted in place, is not modelled. Null lists and null elements inside string lists are not modelled.
- CanonicalHeaderNames.CanonicalizeHeaderNames: the header sequence is non-null. A null argument would throw in the `foreach`, and that is not modelled.
- The sort algorithm of `List<T>.Sort` (introspective and unstable) is replaced by insertion sort. For a total order both give the one sorted permutation (`Ordering.SortedUnique`).

## Findings

| source | as written | input that shows it | evidently intended | confidence | as-written member | corrected member |
|---|---|---|---|---|---|---|
| UrlEncode.cs:91-117 | The buffer is sized `2 * GetMaxByteCount(length)`, or 256 bytes on the stack. The UTF-8 bytes are placed in its last `GetMaxByteCount` bytes and encoded in place from the front. A byte of 0x80 or above becomes three bytes. For text of three-byte characters the writes therefore reach unread bytes, and the loop reads its own output there. The result is a silently corrupted encoding, with no exception, and it enters the canonical string that gets signed. This happens for 29 to 41 characters on the stack, for 57 to 84 characters in the 512-byte array of a power-of-two pool, and for every length from 29 on when the pool returns exactly the requested size. | 29 × U+20AC (euro sign): the 256-byte stack buffer holds the 87 bytes from offset 166. Byte 84 is read at offset 250 after the 28th escape has overwritten it with 'A'. The result is 28 × "%E2%82%AC" followed by "ACA", 255 characters instead of 261 | every text below 238,609,294 UTF-16 units is encoded, since three times `GetMaxByteCount` is enough for it; for longer text no buffer of `int` size holds that much, and the corrected code throws `ArgumentOutOfRangeException` | high; proved, not executed | UrlEncode.After with UrlEncode.EuroSignsOutput, UrlEncode.EuroSignsMisencoded, UrlEncode.ThreeByteTextMisencoded and UrlEncode.EuroSignsMisencodedRoundedArray | UrlEncode.AfterResized with UrlEncode.ResizedBufferFits and UrlEncode.ResizedEncodedByteLengthLimit |
