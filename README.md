# Schema-less Protocol Buffers decoder, modelled in Dafny

This project models the core of a decoder that reads Protocol Buffers wire
format without a schema ("Base 128 Varints" and "Message Structure" of the
Protocol Buffers encoding guide). The model has three parts:

- **The wire decoder** (`ProtoParser`). A `ProtoReader` is a cursor whose
  position moves as it reads varints, varint spans and fixed-width slices.
  `ParseMessage` loops over field keys and splits each key into a field number
  (`key >> 3`, truncated to `int`) and a wire type (`key & 7`). It reads the
  value by wire type. A non-empty length-delimited payload is tried as a nested
  message; it gets children only when that nested decode succeeds.
- **The display tree** (`ProtoDisplayNode`). Sibling fields are grouped by
  field number in order of first appearance. A field seen several times
  becomes an array group whose elements have paths `F[i]`. Labels, summaries
  and raw previews are built from the decoded values.
- **The input normaliser** (`InputDataParser`). It reads pasted text first as
  hexadecimal (white space, `0x` and `\x` prefixes skipped; RFC 4648 section 8),
  then as base64 after mapping the URL-safe alphabet to the standard one and
  padding (RFC 4648 sections 4 and 5). It also has a text/binary classifier.

The modules follow the program:

- `WireTypes` models `ProtoWireType`.
- `ProtoNodes` models `ProtoNode`.
- `ProtoParser` models the decoder. It has two forms:
  - specification functions `ScanVarint`, `ReadVarintAt`, `ReadFieldAt` and `ParseFrom`;
  - the imperative `ProtoReader` class and the `ParseMessage`, `ReadValue`,
    `TryParseNested` and `Parse` methods, each proved equal to those functions.
- `VarintProperties` and `ParserProperties` hold the lemmas about the decoder.
- `DisplayValues`, `DisplayText`, `DisplayPaths`, `DisplayTree` and
  `DisplayProperties` model `ProtoDisplayNode`.
- `InputData` models `InputDataParser`.
- `Numeric`, `Text` and `Results` are shared arithmetic, string and result helpers.

Each .NET exception becomes an error value:

- `ParseError` has `VarintTruncated`, `VarintTooLong`, `SliceOutOfRange`,
  `LengthTooLarge` and `UnsupportedWireType`.
- Input parsing yields an `Option` or a `Result` carrying the message text.

Library calls that cannot be seen are parameters of the functions that use them:

- `Encoding.UTF8.GetString` is `utf8: seq<byte> -> string`.
- `Convert.FromBase64String` is `fromBase64: string -> Option<seq<byte>>`, where a `FormatException` is `None`.

Two behaviours are worth noting; the model states them as the code has them:

- `LooksLikeText` looks for a zero byte only among the first 1024 bytes. A
  zero byte after those does not make the data binary (`InputData.OnlyPrefixCounts`).
- Fixed32 and Fixed64 summaries print `0x` followed by the decimal value.

## Model

| member | source | states |
|---|---|---|
| WireTypes.Value | Protobuf.Decode.Parser/ProtoWireType.cs:11-26 | each member's value is one of 0, 1, 2, 5, all below 8 |
| WireTypes.FromBits | Protobuf.Decode.Parser/ProtoWireType.cs:6-27 | a 3-bit value has a member exactly when it is 0, 1, 2 or 5, and that member's value is the bits |
| WireTypes.ValueRoundTrip | Protobuf.Decode.Parser/ProtoWireType.cs:11-26 | member to value to member is the identity; distinct members have distinct values |
| WireTypes.Name | Protobuf.Decode.Parser/ProtoWireType.cs:6-27 | the member's name as its `ToString` gives it, never empty; names are distinct (`NamesDistinct`) |
| WireTypes.NamesDistinct | Protobuf.Decode.Parser/ProtoWireType.cs:6-27 | two members have the same name exactly when they are the same, so a label's name tells its wire type |
| ProtoNodes.ToString | Protobuf.Decode.Parser/ProtoNode.cs:31-34 | the text starts "Field N (WT) -> " and ends " child nodes" exactly when the node has a non-empty child list, " bytes" otherwise; between them is the decimal child count, or the decimal byte length |
| ProtoNodes.ToStringCountReadsBack | Protobuf.Decode.Parser/ProtoNode.cs:31-34 | the number printed between head and suffix parses back as the child count, or the value's length in bytes |
| ProtoNodes.ToStringOfWellFormed | Protobuf.Decode.Parser/ProtoNode.cs:23-34 | on a decoded node, "child nodes" is shown exactly when children are present (they are never empty) |
| Numeric.Int32Wrap | Protobuf.Decode.Parser/ProtoParser.cs:62 | the `(int)` cast: a value in `int` range, congruent to the input mod 2^32, and the input itself when it is already in range |
| Numeric.ToInt64 | Protobuf.Decode.Parser/ProtoDisplayNode.cs:56 | the `(long)` cast of a `ulong`: the same value below 2^63, else the value minus 2^64 |
| Text.ParseInt32OfDecimal | Protobuf.Decode.Parser/ProtoDisplayNode.cs:263-267 | `int.TryParse` reads the decimal text of any `int` back as that `int` |
| ProtoParser.ScanVarint | Protobuf.Decode.Parser/ProtoParser.cs:184-198 | the varint's length is 1 to 10 bytes, inside the buffer, ending at a byte below 0x80; otherwise truncated or too long |
| ProtoParser.ReadVarintAt | Protobuf.Decode.Parser/ProtoParser.cs:178-201 | a read value fits in 64 bits and the new position is 1 to 10 bytes further, inside the buffer |
| ProtoParser.ReadFieldAt | Protobuf.Decode.Parser/ProtoParser.cs:61-126 | a decoded field starts at the position, its value lies after its key and ends inside the buffer |
| ProtoParser.ValueAt | Protobuf.Decode.Parser/ProtoParser.cs:65-126 | the value read for a key keeps the key's field number and wire type and lies after the key |
| ProtoParser.LengthDelimitedAt | Protobuf.Decode.Parser/ProtoParser.cs:94-100 | a length-delimited value starts after its length prefix and ends inside the buffer |
| ProtoParser.VarintStep | Protobuf.Decode.Parser/ProtoParser.cs:189-197 | one loop step: a byte below 0x80 ends the varint with the groups gathered so far; the tenth continuation byte is too long |
| ProtoParser.VarintTruncatedAt | Protobuf.Decode.Parser/ProtoParser.cs:186-187 | running out of bytes before a terminating byte is the truncation error |
| ProtoParser.GatheredGroups | Protobuf.Decode.Parser/ProtoParser.cs:190 | OR-ing each shifted 7-bit group equals the little-endian base-128 value of the bytes, mod 2^64 |
| ProtoParser.ParseFromStep | Protobuf.Decode.Parser/ProtoParser.cs:59-128 | one loop iteration: the field at the position, then the rest of the message; a failed field fails the whole decode |
| ProtoParser.LeafNode | Protobuf.Decode.Parser/ProtoParser.cs:67-92 | a Varint, Fixed32 or Fixed64 field becomes a node with its value's bytes and no children |
| ProtoParser.ProtoReader.constructor | Protobuf.Decode.Parser/ProtoParser.cs:151-153 | a reader over the buffer starts at position 0 |
| ProtoParser.ProtoReader.IsAtEnd | Protobuf.Decode.Parser/ProtoParser.cs:155 | for a valid reader, at the end exactly when the bytes read are all the bytes |
| ProtoParser.ProtoReader.BytesRead | Protobuf.Decode.Parser/ProtoParser.cs:156 | for a valid reader, never more than the buffer holds |
| ProtoParser.ProtoReader.ReadBytes | Protobuf.Decode.Parser/ProtoParser.cs:158-163 | returns the next `length` bytes and moves past them; fails out of range, without moving, when fewer remain |
| ProtoParser.ProtoReader.ReadRawVarint64 | Protobuf.Decode.Parser/ProtoParser.cs:178-201 | the result and the new position are those of `ReadVarintAt`: value of the 7-bit groups, least significant first, position just past the terminating byte; truncated and too-long errors as specified |
| ProtoParser.ProtoReader.ReadVarint | Protobuf.Decode.Parser/ProtoParser.cs:165-168 | the same varint read as `ReadRawVarint64` |
| ProtoParser.ProtoReader.ReadVarintBytes | Protobuf.Decode.Parser/ProtoParser.cs:170-176 | returns exactly the bytes the varint occupied, with its value |
| ProtoParser.ParseMessage | Protobuf.Decode.Parser/ProtoParser.cs:55-131 | the nodes are `ParseFrom` of the reader's position, in stream order; on success the reader is at the end of its buffer |
| ProtoParser.ReadValue | Protobuf.Decode.Parser/ProtoParser.cs:65-126 | the switch on the wire type yields `NodeOf` the field `ValueAt` specifies, or its error, and leaves the reader after the value |
| ProtoParser.TryParseNested | Protobuf.Decode.Parser/ProtoParser.cs:133-146 | succeeds exactly when the payload decodes, and then returns its nodes; every failure stays inside and gives an empty list |
| ProtoParser.Parse | Protobuf.Decode.Parser/ProtoParser.cs:15-19 | the result is `Decode` of the whole buffer |
| VarintProperties.ScanOutcome | Protobuf.Decode.Parser/ProtoParser.cs:184-198 | the scan is truncated exactly when the buffer ends within 10 continuation bytes, too long exactly when 10 continuation bytes are present, and otherwise stops at the first byte below 0x80 |
| VarintProperties.ReadVarintSpan | Protobuf.Decode.Parser/ProtoParser.cs:178-201 | a successful read consumed one varint span of 1 to 10 bytes, and its value is their groups truncated to 64 bits |
| VarintProperties.ReadOfSpan | Protobuf.Decode.Parser/ProtoParser.cs:178-201 | a span of continuation bytes ended by a byte below 0x80 is read as its groups' value, mod 2^64 |
| VarintProperties.ReadVarintErrors | Protobuf.Decode.Parser/ProtoParser.cs:186-197 | the read is truncated exactly when all remaining bytes (fewer than 10) continue, too long exactly when the next 10 all continue; no other error |
| VarintProperties.EncodeVarint | Protobuf.Decode.Parser.Tests/ProtoParserTests.cs:38-48 | the test encoder loop writes at least one byte; what its output means is stated by `EncodeShape` (continuation bits), `EncodeValue` (the groups add up to the value) and `ReadEncodedAt` (the parser reads it back) |
| VarintProperties.EncodeShape | Protobuf.Decode.Parser.Tests/ProtoParserTests.cs:38-48 | every encoded byte but the last has its continuation bit set, the last has not |
| VarintProperties.EncodeValue | Protobuf.Decode.Parser.Tests/ProtoParserTests.cs:38-48 | the groups of the encoding add up to the encoded value |
| VarintProperties.EncodeLength | Protobuf.Decode.Parser.Tests/ProtoParserTests.cs:38-48 | a value below 2^(7n) takes at most n bytes, a larger one more than n |
| VarintProperties.EncodeULongLength | Protobuf.Decode.Parser.Tests/ProtoParserTests.cs:583-597 | every `ulong` encodes to one varint span of its own value; `ulong.MaxValue` takes exactly 10 bytes |
| VarintProperties.ReadEncodedAt | Protobuf.Decode.Parser/ProtoParser.cs:178-201 | reading an encoded `ulong` gives the value back and moves past the encoding |
| ParserProperties.FieldKey | Protobuf.Decode.Parser/ProtoParser.cs:61-63 | a decoded field's wire type is `key & 7` and its field number is `key >> 3` truncated to `int` |
| ParserProperties.FieldValue | Protobuf.Decode.Parser/ProtoParser.cs:67-100 | a Fixed32 value is 4 bytes and a Fixed64 value 8, after the key; a Varint value is one varint span; a length-delimited value is exactly its declared length, at most `int.MaxValue` |
| ParserProperties.UnsupportedWireTypes | Protobuf.Decode.Parser/ProtoParser.cs:125-126 | the field fails as unsupported exactly when `key & 7` is 3, 4, 6 or 7, and reports those bits |
| ParserProperties.ValueErrors | Protobuf.Decode.Parser/ProtoParser.cs:67-92 | a fixed-width value fails out of range exactly when fewer than 4 / 8 bytes remain; a Varint value fails exactly as its varint does |
| ParserProperties.LengthErrors | Protobuf.Decode.Parser/ProtoParser.cs:96-100 | a length-delimited value fails as too large exactly when its length exceeds `int.MaxValue`, out of range exactly when the payload runs past the buffer, and otherwise as its length varint does |
| ParserProperties.FramesTile | Protobuf.Decode.Parser/ProtoParser.cs:59-128 | the fields of a successful decode tile the buffer from the start to its end, each read at its own start |
| ParserProperties.ParseFromFrames | Protobuf.Decode.Parser/ProtoParser.cs:59-130 | the decode succeeds exactly when the fields tile the buffer, with the same error otherwise, and gives one node per field in stream order |
| ParserProperties.ParseFromEmpty | Protobuf.Decode.Parser/ProtoParser.cs:59-130 | a successful decode is empty exactly when there were no bytes left |
| ParserProperties.FieldNodeWellFormed | Protobuf.Decode.Parser/ProtoParser.cs:94-123 | a decoded field's node has the value size its wire type dictates; children only on a length-delimited node, never empty |
| ParserProperties.ParsedWellFormed | Protobuf.Decode.Parser/ProtoParser.cs:55-131 | every node a successful decode yields is well formed |
| ParserProperties.DecodeWellFormed | Protobuf.Decode.Parser/ProtoParser.cs:15-19 | every decoded node is well formed, and its `ToString` shows child nodes exactly when children are present |
| ParserProperties.EncodeKey | Protobuf.Decode.Parser.Tests/ProtoParserTests.cs:53-57 | the key of field number F (up to `int.MaxValue`) and a wire type is a varint that reads back as F * 8 plus the wire type's value, ending where the key ends |
| ParserProperties.ReadKey | Protobuf.Decode.Parser/ProtoParser.cs:61-65 | a key encoding field number F and a supported wire type is read as that field and wire type |
| ParserProperties.ReadVarintFieldIn | Protobuf.Decode.Parser/ProtoParser.cs:67-74 | a Varint key followed by a varint is one Varint field up to the varint's end |
| ParserProperties.ReadLengthDelimitedFieldIn | Protobuf.Decode.Parser/ProtoParser.cs:94-100 | a length-delimited key and a length n, then n bytes, is one field whose value is those n bytes |
| ParserProperties.DecodeOneField | Protobuf.Decode.Parser/ProtoParser.cs:15-19 | a buffer holding exactly one field decodes to that field's node alone |
| ParserProperties.DecodeVarintIn | Protobuf.Decode.Parser/ProtoParser.cs:67-74 | a buffer of one Varint field decodes to one leaf whose value is the varint's bytes |
| ParserProperties.DecodeNestedIn | Protobuf.Decode.Parser/ProtoParser.cs:94-123 | a buffer of one length-delimited field decodes to one node with children exactly when the payload is non-empty and decodes |
| ParserProperties.LastNode | Protobuf.Decode.Parser/ProtoParser.cs:103-121 | a length-delimited node keeps the nested decode as children only when the payload is non-empty and decodes, else it is a leaf |
| ParserProperties.DecodeVarintField | Protobuf.Decode.Parser.Tests/ProtoParserTests.cs:567-581 | an encoded key and an encoded `ulong` decode to one Varint node holding the encoding |
| ParserProperties.SimpleVarintExample | Protobuf.Decode.Parser.Tests/ProtoParserTests.cs:64-80 | `08 96 01` decodes to field 1, Varint, raw value `96 01` (2 bytes) |
| ParserProperties.EmptyLengthDelimitedExample | Protobuf.Decode.Parser.Tests/ProtoParserTests.cs:171-185 | `0A 00` decodes to field 1, length-delimited, empty value, no children |
| ParserProperties.NestedMessageExample | Protobuf.Decode.Parser.Tests/ProtoParserTests.cs:192-220 | field 3 holding "field 1 = 150" decodes with that one child |
| ParserProperties.EmptyDataExample | Protobuf.Decode.Parser.Tests/ProtoParserTests.cs:554-564 | no bytes decode to no nodes |
| ParserProperties.IncompleteVarintExample | Protobuf.Decode.Parser.Tests/ProtoParserTests.cs:638-645 | `08 96 80` fails as a truncated varint |
| ParserProperties.IncompleteFixed32Example | Protobuf.Decode.Parser.Tests/ProtoParserTests.cs:648-655 | `0D 01 02` fails out of range |
| ParserProperties.InvalidWireTypeExample | Protobuf.Decode.Parser.Tests/ProtoParserTests.cs:658-665 | `0B` fails with unsupported wire type 3 |
| ParserProperties.LargeVarintExample | Protobuf.Decode.Parser.Tests/ProtoParserTests.cs:583-597 | field 1 holding `ulong.MaxValue` decodes to one node whose value is 10 bytes |
| DisplayValues.VarintBits | Protobuf.Decode.Parser/ProtoDisplayNode.cs:43-55 | the gathered bits fit in 64 bits |
| DisplayValues.VarintToValue | Protobuf.Decode.Parser/ProtoDisplayNode.cs:43-57 | the loop's result is the 64 gathered bits read as a signed `long` |
| DisplayValues.VarintBitsOfPrefix | Protobuf.Decode.Parser/ProtoDisplayNode.cs:48-54 | when the bytes start with a varint span, the bits are that span's groups mod 2^64 |
| DisplayValues.VarintValueOfDecoded | Protobuf.Decode.Parser/ProtoDisplayNode.cs:43-57 | on the raw value of a decoded Varint field, the display value is the decoder's value read as a `long` |
| DisplayValues.VarintIgnoresTail | Protobuf.Decode.Parser/ProtoDisplayNode.cs:51-52 | bytes after the first byte without a continuation bit are ignored |
| DisplayValues.VarintToValueExamples | Protobuf.Decode.Parser.Tests/ProtoDisplayNodeTests.cs:96-132 | `01` is 1, `AC 02` is 300, `00` is 0 |
| DisplayValues.TwoByteVarint | Protobuf.Decode.Parser/ProtoDisplayNode.cs:48-56 | a continuation byte then a final byte give low group plus 128 times the high group |
| DisplayValues.LittleEndianBound | Protobuf.Decode.Parser/ProtoDisplayNode.cs:78-79 | n little-endian bytes are below 2^(8n) |
| DisplayValues.FixedWords | Protobuf.Decode.Parser/ProtoDisplayNode.cs:78-79 | `ToUInt32` / `ToUInt64` fit in 32 / 64 bits and read only the first 4 / 8 bytes |
| DisplayValues.Fixed32Example | Protobuf.Decode.Parser.Tests/ProtoDisplayNodeTests.cs:249-266 | the bytes `12 34 56 78` are the little-endian word 0x78563412 |
| DisplayText.TryGetUtf8 | Protobuf.Decode.Parser/ProtoDisplayNode.cs:164-177 | the decoded text passed through `TextOrNone`, whose contract states when it is null |
| DisplayText.TextOrNone | Protobuf.Decode.Parser/ProtoDisplayNode.cs:169-171 | the text is rejected exactly when it holds a control character other than `\n`, `\r`, `\t`, and otherwise kept unchanged |
| DisplayText.UInt64Bits | Protobuf.Decode.Parser/ProtoDisplayNode.cs:141 | the 64-bit pattern `{value:X}` prints reads back as the `long` value |
| DisplayText.VarintText | Protobuf.Decode.Parser/ProtoDisplayNode.cs:138-142 | `CreateVarintText`: the text starts with the decimal value as a `long`, then " (0x", and ends with ")" |
| DisplayText.VarintTextHex | Protobuf.Decode.Parser/ProtoDisplayNode.cs:138-142 | the varint text is the signed decimal value, then the gathered 64 bits in hexadecimal |
| DisplayText.WellFormedDisplayable | Protobuf.Decode.Parser/ProtoDisplayNode.cs:78-79 | every decoded node can be displayed: fixed-width values are long enough for `BitConverter` |
| DisplayText.LengthDelimitedSummary | Protobuf.Decode.Parser/ProtoDisplayNode.cs:120-136 | "LengthDelimited · 空" exactly for no bytes; the quoted text exactly when it decodes to non-empty text without forbidden controls; else dash-joined hex up to 8 bytes, else only the length; every other summary ends with the length |
| DisplayText.Payload | Protobuf.Decode.Parser/ProtoDisplayNode.cs:102-112 | `CreatePayload`; its cases are stated in `PayloadShape` |
| DisplayText.PayloadShape | Protobuf.Decode.Parser/ProtoDisplayNode.cs:102-112 | a Varint payload is the varint text, whose leading sign and digits read back as the value; a Fixed32 or Fixed64 payload is "0x", then digits whose decimal value is the little-endian word, then " (LE)"; a length-delimited payload is its length-delimited text |
| DisplayText.Label | Protobuf.Decode.Parser/ProtoDisplayNode.cs:59-66 | `CreateLabel`; its shape is stated in `LabelShape` |
| DisplayText.LabelShape | Protobuf.Decode.Parser/ProtoDisplayNode.cs:59-66 | the label starts "#F [WT] ", then "←" exactly for a node with children and "→" exactly for one without; after the arrow, a node with children shows a count that `int.TryParse` reads back as the number of children, ending " 子节点", and one without shows its payload |
| DisplayText.Summary | Protobuf.Decode.Parser/ProtoDisplayNode.cs:68-83 | `CreateSummary`; its cases are stated in `SummaryShape` and `SummaryKinds` |
| DisplayText.LengthDelimitedText | Protobuf.Decode.Parser/ProtoDisplayNode.cs:144-162 | `CreateLengthDelimitedText`; its cases are stated in `LengthDelimitedTextShape` |
| DisplayText.LengthDelimitedTextShape | Protobuf.Decode.Parser/ProtoDisplayNode.cs:144-162 | the payload text starts with "嵌" exactly for a nested node and with "U" exactly for a non-empty leaf whose bytes are text; it is "长度 0" exactly for an empty leaf, and otherwise ends with the length |
| DisplayText.SummaryShape | Protobuf.Decode.Parser/ProtoDisplayNode.cs:68-83 | every summary but the empty length-delimited one ends with the length mark and digits that read back as the value's length; a nested node's summary holds a count that `int.TryParse` reads back as the number of children; a Varint summary holds the varint text; a Fixed32 or Fixed64 summary holds, after "0x", digits that read back as the little-endian word; a length-delimited leaf has its length-delimited summary |
| DisplayText.SummaryKinds | Protobuf.Decode.Parser/ProtoDisplayNode.cs:68-83 | the summary starts "嵌" exactly for a node with children, starts with the wire type's name for a varint or fixed leaf, and is "LengthDelimited · 空" exactly for an empty length-delimited leaf |
| DisplayText.RawPreview | Protobuf.Decode.Parser/ProtoDisplayNode.cs:114-118 | `CreateRawPreview`; its layout is stated in `RawPreviewLayout` |
| DisplayText.RawPreviewLayout | Protobuf.Decode.Parser/ProtoDisplayNode.cs:114-118 | empty for no bytes, else two upper-case hex digits per byte separated by single spaces, 3n-1 characters |
| DisplayText.ReplaceJoined | Protobuf.Decode.Parser/ProtoDisplayNode.cs:117 | replacing the dashes of `BitConverter.ToString` by spaces gives the space-joined hex |
| DisplayText.JoinedCharAt | Protobuf.Decode.Parser/ProtoDisplayNode.cs:117 | character i of the joined hex is the separator when i mod 3 is 2, else a digit of byte i/3 |
| DisplayText.ControlTextShownAsBytes | Protobuf.Decode.Parser/ProtoDisplayNode.cs:124-135 | text holding a forbidden control character is shown as bytes, in hex up to 8 bytes |
| DisplayText.ControlBytesSummary | Protobuf.Decode.Parser.Tests/ProtoDisplayNodeTests.cs:464-483 | the bytes `00 01 02 FF` are summarised "Bytes · 00-01-02-FF · 长度 4" |
| DisplayText.ControlBytesHex | Protobuf.Decode.Parser.Tests/ProtoDisplayNodeTests.cs:464-483 | `00 01 02 FF` dash-joined is "00-01-02-FF" |
| DisplayPaths.ComposePath | Protobuf.Decode.Parser/ProtoDisplayNode.cs:239-242 | the segment alone under an empty parent, else parent, dot, segment |
| DisplayPaths.LastSegment | Protobuf.Decode.Parser/ProtoDisplayNode.cs:244-250 | `GetLastSegment`; that it recovers the segment a path was composed with is stated in `LastSegmentOfComposed` |
| DisplayPaths.LastSegmentOfComposed | Protobuf.Decode.Parser/ProtoDisplayNode.cs:244-250 | the last segment of a composed path is the segment added |
| DisplayPaths.FieldSegment | Protobuf.Decode.Parser/ProtoDisplayNode.cs:252-270 | a plain field-number segment has no dot and no occurrence index |
| DisplayPaths.OccurrenceIndex | Protobuf.Decode.Parser/ProtoDisplayNode.cs:252-270 | `TryGetOccurrenceIndexFromSegment`; stated in `BracketIndex`, `FieldSegment` and `ElementSegmentIndex` |
| DisplayPaths.ElementSegmentIndex | Protobuf.Decode.Parser/ProtoDisplayNode.cs:252-270 | the occurrence index of "F[k]" parses back as k |
| DisplayPaths.BracketIndex | Protobuf.Decode.Parser/ProtoDisplayNode.cs:257-264 | in "a[b]" without brackets in a or b, the index is b parsed as an `int` |
| DisplayPaths.OccurrenceExample | Protobuf.Decode.Parser.Tests/ProtoDisplayNodeTests.cs:312-332 | "3[2]" has occurrence index 2 |
| DisplayTree.IsError | Protobuf.Decode.Parser/ProtoDisplayNode.cs:16 | no field and no children; error nodes are exactly those of `CreateError`, and no field node or group is one (`DisplayOfShowsField`, `GroupShape`) |
| DisplayTree.IsArrayGroup | Protobuf.Decode.Parser/ProtoDisplayNode.cs:20 | no field but children; exactly the groups of repeated fields (`ArrayGroup`, `GroupShape`, `ArrayGroupShape`) |
| DisplayTree.IsRepeated | Protobuf.Decode.Parser/ProtoDisplayNode.cs:17 | the last path segment carries an index; true at "F[k]" and false at a plain field path (`ShownAsElement`, `ShownAsField`) |
| DisplayTree.Occurrence | Protobuf.Decode.Parser/ProtoDisplayNode.cs:18 | the index of the last segment, else 1; k at "F[k]" (`ShownAsElement`) |
| DisplayTree.FieldDisplay | Protobuf.Decode.Parser/ProtoDisplayNode.cs:85-100 | "[count]" for an array group, "F[k]" for an element, the field number otherwise (`GroupShape`, `ShownAsElement`, `ShownAsField`) |
| DisplayTree.DisplayOf | Protobuf.Decode.Parser/ProtoDisplayNode.cs:22-38 | the node constructor as a function; what it holds is stated in `DisplayOfShowsField` |
| DisplayTree.CreateError | Protobuf.Decode.Parser/ProtoDisplayNode.cs:40-41 | an error node: label and summary are the message, path "", field number -1, not a group, not repeated |
| DisplayTree.ArrayGroup | Protobuf.Decode.Parser/ProtoDisplayNode.cs:232-237 | a group node is an array group, and not an error, exactly when it has children |
| DisplayTree.FieldOrderFacts | Protobuf.Decode.Parser/ProtoDisplayNode.cs:186-198 | the field order lists every field number of the nodes once and no other |
| DisplayTree.OccurrencesFacts | Protobuf.Decode.Parser/ProtoDisplayNode.cs:186-198 | the list of a field number holds only its own nodes, and is non-empty exactly when the number occurs |
| DisplayTree.FromNodes | Protobuf.Decode.Parser/ProtoDisplayNode.cs:32-33 | the display nodes of the top-level fields under the empty path |
| DisplayTree.NewDisplayNode | Protobuf.Decode.Parser/ProtoDisplayNode.cs:22-30 | the display node of a field: its label, children built under its path, summary and preview |
| DisplayTree.BuildDisplayNodes | Protobuf.Decode.Parser/ProtoDisplayNode.cs:179-230 | the result is `DisplayList`: one node per distinct field number in order of first appearance |
| DisplayTree.GroupByField | Protobuf.Decode.Parser/ProtoDisplayNode.cs:186-198 | the order is the field numbers by first appearance, and each number's list its nodes in stream order |
| DisplayTree.BuildElements | Protobuf.Decode.Parser/ProtoDisplayNode.cs:214-224 | one display node per occurrence at path "F[i]", and the total of the items' own value lengths |
| DisplayProperties.DisplayListGroups | Protobuf.Decode.Parser/ProtoDisplayNode.cs:200-229 | the list has one node per distinct field number, the j-th being the group of the j-th number first seen |
| DisplayProperties.GroupShape | Protobuf.Decode.Parser/ProtoDisplayNode.cs:204-226 | a field's node has its number and the unindexed path, is never an error, is an array group exactly when the number occurs more than once, and then shows "[count]" |
| DisplayProperties.ArrayGroupShape | Protobuf.Decode.Parser/ProtoDisplayNode.cs:214-237 | a field seen more than once is an array group with no field of its own and an empty preview; it has the wire type of its first occurrence, the label "#F 数组", and a summary giving the count and the sum of the occurrences' own value lengths |
| DisplayProperties.SingleGroup | Protobuf.Decode.Parser/ProtoDisplayNode.cs:208-212 | a field seen once is the display node of its only occurrence at `ComposePath(parent, F)` |
| DisplayProperties.ArrayElement | Protobuf.Decode.Parser/ProtoDisplayNode.cs:214-226 | the i-th child of an array group is the i-th occurrence at `ComposePath(parent, "F[i+1]")` |
| DisplayProperties.DisplayOfShowsField | Protobuf.Decode.Parser/ProtoDisplayNode.cs:22-38 | a field's display node holds the field, its number, wire type and path; it is neither an error nor a group, and has children exactly when the field has |
| DisplayProperties.SingleFieldDisplay | Protobuf.Decode.Parser/ProtoDisplayNode.cs:85-100 | a field seen once is not repeated and shows its number |
| DisplayProperties.ShownAsField | Protobuf.Decode.Parser/ProtoDisplayNode.cs:85-100 | a node at a plain field path is not repeated and shows its field number |
| DisplayProperties.ElementFieldDisplay | Protobuf.Decode.Parser.Tests/ProtoDisplayNodeTests.cs:312-332 | the i-th element of an array group is repeated, has occurrence i+1 and shows "F[i+1]" |
| DisplayProperties.ShownAsElement | Protobuf.Decode.Parser/ProtoDisplayNode.cs:17-18 | a node at path "F[k]" is repeated with occurrence index k and shows "F[k]" |
| DisplayProperties.EveryFieldShownOnce | Protobuf.Decode.Parser/ProtoDisplayNode.cs:179-230 | every decoded field is shown exactly once: the fields the top-level display nodes stand for (single nodes, and the elements of array groups) are the decoded fields as a multiset, so none is lost or repeated |
| DisplayProperties.GroupShown | Protobuf.Decode.Parser/ProtoDisplayNode.cs:204-226 | the node of field number F stands for exactly the occurrences of F, in stream order |
| DisplayProperties.OccurrencesPartition | Protobuf.Decode.Parser/ProtoDisplayNode.cs:186-198 | the lists of all field numbers, taken in order of first appearance, hold the decoded fields as a multiset: the grouping is a rearrangement |
| DisplayProperties.FieldOrderFirstSeen | Protobuf.Decode.Parser/ProtoDisplayNode.cs:189-196 | a field number earlier in the order was seen before any occurrence of a later one |
| DisplayProperties.MixedGrouping | Protobuf.Decode.Parser.Tests/ProtoDisplayNodeTests.cs:437-461 | fields 1, 2, 1 group as [1, 2] with two occurrences of 1 and one of 2 |
| DisplayProperties.MixedRepeatedAndSingle | Protobuf.Decode.Parser.Tests/ProtoDisplayNodeTests.cs:437-461 | fields 1, 2, 1 display as an array group of two for field 1, then a single node for field 2 |
| InputData.HexDigitsAreHex | Protobuf.Decode.Shared/Services/InputDataParser.cs:82-86 | what the reader collects are hexadecimal digits |
| InputData.FromHexString | Protobuf.Decode.Shared/Services/InputDataParser.cs:106 | an even run of digits gives half as many bytes |
| InputData.FromHexStringAt | Protobuf.Decode.Shared/Services/InputDataParser.cs:104-114 | byte k is 16 times digit 2k plus digit 2k+1: high nibble first |
| InputData.TryParseHex | Protobuf.Decode.Shared/Services/InputDataParser.cs:52-115 | the loop's outcome is `HexInput`: empty for blank text or no digits, none on a stray character or an odd count, else the bytes of the digits |
| InputData.HexStep | Protobuf.Decode.Shared/Services/InputDataParser.cs:63-89 | one step of the loop: white space is skipped, a prefix skips two characters, a digit is collected |
| InputData.BlankHasNoDigits | Protobuf.Decode.Shared/Services/InputDataParser.cs:54-58 | blank text holds no digits |
| InputData.HexInputSucceeds | Protobuf.Decode.Shared/Services/InputDataParser.cs:92-114 | hex input succeeds exactly when no stray character is met and the digit count is even, with half as many bytes as digits |
| InputData.StrayCharacterFails | Protobuf.Decode.Shared/Services/InputDataParser.cs:60-90 | a character the reader cannot skip makes hex parsing fail: any character other than white space and digits, an `x` or `X` not after `0` or `\`, and a `\` not before `x` or `X` |
| InputData.FailsOnlyAtStray | Protobuf.Decode.Shared/Services/InputDataParser.cs:60-90 | conversely, when the reader fails there is such a character: nothing else makes it fail |
| InputData.StrayExamples | Protobuf.Decode.Shared/Services/InputDataParser.cs:88-89 | a lone `x`, `AB x` and `\A` are not hex input |
| InputData.FromHexOfConcat | Protobuf.Decode.Shared/Services/InputDataParser.cs:106 | converting the digits written for some bytes gives those bytes back |
| InputData.ConcatRoundTrip | Protobuf.Decode.Shared/Services/InputDataParser.cs:52-115 | bytes written as unseparated digit pairs parse back as those bytes |
| InputData.JoinedDigits | Protobuf.Decode.Shared/Services/InputDataParser.cs:60-90 | bytes written as digit pairs separated by white space are read as their digits |
| InputData.HexRoundTrip | Protobuf.Decode.Shared/Services/InputDataParser.cs:52-115 | bytes written as digit pairs separated by any white space parse back as those bytes |
| InputData.DashJoinedFails | Protobuf.Decode.Shared/Services/InputDataParser.cs:88-89 | two or more bytes joined by dashes are not hex input |
| InputData.EscapedDigits | Protobuf.Decode.Shared/Services/InputDataParser.cs:70-74 | "\xAA\xBB..." is read as its digits |
| InputData.EscapedRoundTrip | Protobuf.Decode.Shared/Services/InputDataParser.cs:52-115 | "\xAA\xBB..." parses back as the bytes written |
| InputData.StrippedFacts | Protobuf.Decode.Shared/Services/InputDataParser.cs:125-138 | stripping leaves no white space, and leaves nothing exactly when the text is blank |
| InputData.TryParseBase64 | Protobuf.Decode.Shared/Services/InputDataParser.cs:117-160 | the outcome is `Base64Input`: empty for blank text, else the decoder's result on the normalised string |
| InputData.NormalizedShape | Protobuf.Decode.Shared/Services/InputDataParser.cs:140-147 | the normalised string is the candidate in the standard alphabet, then fewer than four "=" up to a multiple of four, with no URL-safe character |
| InputData.StandardUnchanged | Protobuf.Decode.Shared/Services/InputDataParser.cs:140-147 | padded standard base64 passes unchanged |
| InputData.UrlSafeNormalizesIdentically | Protobuf.Decode.Shared/Services/InputDataParser.cs:140-147 | a string and its URL-safe twin normalise identically |
| InputData.StrippedUrlSafe | Protobuf.Decode.Shared/Services/InputDataParser.cs:125-132 | stripping white space commutes with writing the URL-safe twin |
| InputData.UrlSafeDecodesIdentically | Protobuf.Decode.Shared/Services/InputDataParser.cs:117-160 | whatever the decoder, text and its URL-safe twin yield the same bytes |
| InputData.Parse | Protobuf.Decode.Shared/Services/InputDataParser.cs:10-23 | the outcome is `InputBytes`: the hex bytes if hex succeeds, else the base64 bytes, else the format error |
| InputData.BlankParsesEmpty | Protobuf.Decode.Shared/Services/InputDataParser.cs:54-58 | blank text parses as no bytes, whatever the decoder |
| InputData.PreviewParsesBack | Protobuf.Decode.Shared/Services/InputDataParser.cs:10-23 | the raw preview of some bytes, pasted back, parses as those bytes |
| InputData.PrefixedExample | Protobuf.Decode.Shared/Services/InputDataParser.cs:76-80 | "0xFF 0xAA" parses as FF AA |
| InputData.HexWinsOverBase64 | Protobuf.Decode.Shared/Services/InputDataParser.cs:12-15 | "AAAA" is read as hex AA AA, not as base64 |
| InputData.PrintableCount | Protobuf.Decode.Shared/Services/InputDataParser.cs:43-46 | the count of printable bytes is at most the number of bytes |
| InputData.LooksLikeText | Protobuf.Decode.Shared/Services/InputDataParser.cs:25-50 | the loop's answer is `LooksText`: empty is text; else no zero byte in the first 1024 and at least 80% of them printable |
| InputData.ZeroByteIsBinary | Protobuf.Decode.Shared/Services/InputDataParser.cs:38-41 | a zero byte among the first 1024 makes the data binary |
| InputData.OnlyPrefixCounts | Protobuf.Decode.Shared/Services/InputDataParser.cs:33-35 | bytes after the first 1024 do not change the answer |
| InputData.PrintableIsText | Protobuf.Decode.Shared/Services/InputDataParser.cs:43-49 | data of printable bytes only is text |
| InputData.ThresholdExamples | Protobuf.Decode.Shared/Services/InputDataParser.cs:49 | the threshold is inclusive: 4 printable bytes of 5 is text, 3 of 4 is not |

## Left out

- `PrettyPrint` (Protobuf.Decode.Parser/ProtoParser.cs:27-53) is debug output that nothing else uses; it is not part of this model.
- The desktop shell (window, fonts, user interface) holds no decoding logic and is not part of this model.
- Exceptions are error values. The exception classes and their messages are not modelled, except the input-format message text.
- `ProtoReader` is a `ref struct` passed by `ref`; the model uses a class reached through a reference, which has the same effect on the position.
- A nested parse uses a fresh reader over the payload bytes (a copy of the slice, not a view into the outer buffer); nothing in the source writes through either.
- `ReadValue` is the body of the `switch` in `ParseMessage`, made a method of its own.
- `BuildDisplayNodes` has its two loops as the methods `GroupByField` and `BuildElements`. The `List`/`Dictionary` objects become values, because no list is shared or changed after it is built.
- `Encoding.UTF8.GetString` is the parameter `utf8`. Its U+FFFD replacement is not modelled, and neither is its exception, caught at `TryGetUtf8`. Only the control-character filter is modelled.
- `char.IsControl` is the Unicode category Cc: U+0000 to U+001F and U+007F to U+009F.
- Strings are sequences of Unicode scalar values, not UTF-16 code units. Surrogate pairs are not modelled.
- `Convert.FromBase64String` is the parameter `fromBase64`. Its leniency, such as white space inside the string, is the decoder's own business.
- `Convert.FromHexString` cannot fail here: only hexadecimal digits, an even number of them, reach it. Its `FormatException` branch is therefore left out.
- A null `string` or list is modelled as the empty one.
- `TotalLength` and the decoder's `int` position are unbounded integers. An `int` overflow is not reachable for buffers shorter than `int.MaxValue`, and is not modelled.
- `TextThreshold = 0.8` (a `double`) is restated as `5 * printable >= 4 * total`. This is exact for the at most 1024 bytes counted.
- ParserProperties.EncodeKey: computes the key on unbounded integers. The helper of the parser's tests shifts the field number in 32-bit `int`, which wraps for field numbers from 2^28 on; the tests use only small field numbers.
- DisplayTree.DisplayOf: requires `Displayable`, that is Fixed32 and Fixed64 values of at least 4 and 8 bytes. On a shorter value `BitConverter` throws; that exception is not modelled. Every node the decoder builds is displayable (`DisplayText.WellFormedDisplayable`).
- The `CultureInfo`-based formatting is modelled as plain decimal and upper-case hexadecimal text.
- `int.TryParse` is modelled for an optional sign and decimal digits, with surrounding white space. Other `NumberStyles.Integer` details are not modelled.
