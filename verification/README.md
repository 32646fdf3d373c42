# nanopb wire codec and trip status sweep: a verified model

The project models two parts of the repository and proves what they are for.

**The nanopb codec** (`Frontend/Pods/nanopb`) encodes and decodes Protocol Buffers messages under the
control of a table of fields, the descriptor. It implements the Protocol Buffers encoding guide, sections
"Base 128 Varints", "Signed Integers", "Message Structure", "Length-Delimited Records" and "Packed Repeated
Fields".

* `Descriptor` holds descriptors and the structs they describe. A struct is a sequence of slots, one a field;
  `Shaped` says that the C types allow it, `WellFormed` that every count, size, terminator and `which` member
  is in order.
* `Parse` and `Serialize` state what the decoder accepts and what the encoder emits, as functions on byte
  strings. `Sizes`, `RoundTrip`, `Canonical`, `Normal`, `Theorems`, `Merge`, `Nested`, `Order`, `Packed` and
  `Evolution` prove the laws of the format about them: round trips, canonical and normal forms, merging, unknown
  fields, repeated records, the order of records, packed arrays and descriptors that grow. `Wire` says in numbers
  which bytes each field type stands for, in both directions, and `Initial` what a struct holds before anything
  is decoded into it.
* `InputStream` and `Decoder`, `OutputStream` and `Encoder`, `FieldIterator` and `Required` follow the C
  functions step by step over buffers, cursors, substreams, the field iterator and the bitmap of required
  fields. Each method is proved to do what `Parse` and `Serialize` say, to stay inside its region and to
  terminate.
* `Codec` puts both sides together: encoding into a buffer and decoding the bytes written gives back the
  message exactly when the message has an encoding, the encoding fits and the struct is well formed.
* `Bits`, `Varint` and `ZigZag` are the arithmetic underneath: words of a fixed width as naturals, both varint
  decoders, and the two zigzag codes of the repository.

Descriptors are finite trees, so that recursion in them ends. A valid descriptor has distinct tags between 1
and 2^29 - 1, statically allocated fields, sizes that fit their types and defaults that fit their fields.
`pb_size_t` has 32 bits, as `PB_FIELD_32BIT=1` in `Frontend/Pods/Target Support Files/nanopb/nanopb.xcconfig`
sets it. The same line sets `PB_ENABLE_MALLOC=1`. With statically allocated fields only, what that adds changes
nothing: `pb_release_single_field` (`Frontend/Pods/nanopb/pb_decode.c:1130-1219`) then has nothing to free and
writes nothing, and `pb_release_union_field` (1104-1128) leaves the iterator on the field it was on.

**The trip status sweep** (`Backend/src/Trip`) sorts a user's trips into pending, current and history by
date. The three lists are stored as texts in which every id is followed by a comma. `TripStrings` has the
texts and Java's `split`, `TripSweep` the servlets over a table of users and a table of trips, and `TripRuns`
the lists the texts stand for and what holds over whole runs.

## Where the code falls short of its promise

* A string that fills its field without a terminator is encoded but cannot be decoded
  (`Theorems.UnterminatedString`). `Theorems.DecodesExactly` says when an encoding decodes, if and only if every
  encoded string is terminated, and what it decodes to; `Theorems.RoundTripExactly` says when the struct comes
  back unchanged, if and only if it is well formed.
* The 32-bit varint decoder is meant to reject what is no 32-bit value, unsigned or sign-extended. Up to five
  bytes it accepts exactly the values below 2^32 (`Varint.Var32Exact`). From six bytes on it looks only at the
  bytes after the fifth (`Varint.Var32ExactLong`) and can drop bits 32 to 34 unseen; `Varint.Var32DropsBits` says
  exactly for which varints it keeps its promise, and `Varint.Var32AcceptsTooMuch` has one for which it does not.
  It also has no limit of ten bytes: `Varint.Var32TakesPadding` names varints of any length that it accepts and
  `pb_decode_varint` rejects, and `Varint.Var32WrapsAround` those of which it makes another number because its bit
  position wraps around.
* Decoding two messages into one struct merges them, and so does decoding their concatenation, as long as the
  first is read to its end (`Merge.ConcatenationExactly`), which every encoding is
  (`Theorems.EncodingReadsThrough`, `Theorems.EncodingsMerge`). A zero tag behind the first message, such as
  `pb_encode_nullterminated` writes, hides the second (`Merge.ZeroTagHides`).
* The wire type of a known field is not looked at, so that a value is decoded whatever wire type its key announces
  (`Nested.WireTypeIgnored`).
* On an empty descriptor the field iterator rests on the terminator and finds tag 0
  (`FieldIterator.FieldIter.Find`).
* A trip list that is stored without its last comma fuses with what is appended to it
  (`TripStrings.MissingCommaFuses`, `TripStrings.AppendsExactly`).
* A phase of the sweep stores two columns with two separate updates. If the database fails between them, the
  trips that were to move are lost, and only those (`TripRuns.BrokenSweepLoses`); `TripRuns.OneTripLost` has a
  user who is left without any.

## Model

| member | source | states |
|---|---|---|
| Codec.EncodeThenDecode | Frontend/Pods/nanopb/pb_encode.c:494-516 | Encoding a struct into a buffer and decoding exactly the bytes written succeeds if and only if the struct has an encoding, the encoding fits the buffer and every encoded string is terminated; it gives the normal form of the struct, and the struct itself if and only if that is well formed |
| Codec.EncodeToBuffer | Frontend/Pods/nanopb/pb_encode.c:72-119 | `pb_encode` into a buffer succeeds if and only if the message has an encoding of at most `max_size` bytes; on success the front of the buffer is exactly that encoding; in every outcome at most `max_size` bytes count as written and nothing behind them changes |
| Codec.DecodeFromBuffer | Frontend/Pods/nanopb/pb_decode.c:1051-1063 | `pb_decode` of a buffer accepts what the format accepts, gives the struct it stands for and leaves the rest unread, never reading behind the given size |
| Codec.DecodeDelimited | Frontend/Pods/nanopb/pb_decode.c:1080-1093 | A delimited decode succeeds if and only if the length prefix and the message in its region decode; the parent then stands right behind the region |
| Codec.EncodeNullTerminated | Frontend/Pods/nanopb/pb_encode.c:523-531 | Emits the message followed by one zero byte, or fails without passing the limit |
| Codec.DelimitedRoundTrip | Frontend/Pods/nanopb/pb_encode.c:518-521 | A delimited message is read back whole and what follows it is left alone |
| Codec.NullTerminatedRoundTrip | Frontend/Pods/nanopb/pb_decode.c:1095-1099 | A message that ends with a zero byte decodes to itself whatever bytes follow, and those stay unread |
| Theorems.MessageRoundTrip | Frontend/Pods/nanopb/pb_decode.c:901-1063 | For every valid descriptor and every well-formed struct, nested to any depth, whose length prefixes are below 2^32, decoding the encoding gives back the same struct and uses up all bytes |
| Theorems.RoundTripExactly | Frontend/Pods/nanopb/pb_encode.c:307-392 | Among all structs the C types allow, exactly the well-formed ones come back unchanged from encoding and decoding |
| Theorems.DecodesExactly | Frontend/Pods/nanopb/pb_decode.c:1428-1461 | The encoding of any struct the C types allow decodes if and only if every encoded string is terminated, and then to the struct with everything that is not encoded at its default; that is the struct itself if and only if it is well formed |
| Theorems.EncodingReadsThrough | Frontend/Pods/nanopb/pb_decode.c:305-309 | The encoding of a well-formed struct is read to its end, and with a zero byte behind it it is not |
| Theorems.EncodingsMerge | Frontend/Pods/nanopb/pb_decode.h:70-76 | Whatever follows the encoding of a well-formed struct is decoded into that struct, and need not repeat its required fields |
| Normal.NormalOk | Frontend/Pods/nanopb/pb_encode.c:307-392 | If all encoded strings are terminated, the normal form of a struct is well formed and has the same encoding |
| Normal.MsgRejects | Frontend/Pods/nanopb/pb_decode.c:1437-1455 | One string without terminator anywhere in a message, at any depth and in any array, makes the decoder reject the encoding |
| Theorems.UnterminatedString | Frontend/Pods/nanopb/pb_encode.c:831-855 | There is a struct, one string field of three bytes without terminator, that the encoder accepts and whose encoding the decoder rejects |
| Theorems.EncoderTotal | Frontend/Pods/nanopb/pb_encode.c:307-392 | Every well-formed struct has an encoding |
| Theorems.Canonicalisation | Frontend/Pods/nanopb/pb_decode.c:411-470 | For every byte string that decodes, the struct is well formed, can be encoded, and decoding that encoding gives the same struct if its length prefixes are below 2^32 |
| Canonical.DecodeOk | Frontend/Pods/nanopb/pb_decode.c:812-895 | `pb_decode` produces only well-formed structs: counts within their arrays, strings terminated in bounds, byte sizes that fit, at most one member of each union |
| Canonical.DecNoInitOk | Frontend/Pods/nanopb/pb_decode.c:901-1049 | Decoding any bytes into a well-formed struct leaves a well-formed struct |
| Canonical.SelectOk | Frontend/Pods/nanopb/pb_decode.c:461-470 | Storing to a member of a union leaves exactly that member selected and the struct well formed |
| Canonical.DecLeafOk | Frontend/Pods/nanopb/pb_decode.c:1289-1461 | A scalar, string or byte value that any input decodes to fits its field |
| RoundTrip.MsgRoundTrip | Frontend/Pods/nanopb/pb_encode.c:494-516 | Decoding what is encoded from any field on, into a struct that holds the fields before it, completes the struct and sees every required field from there on |
| RoundTrip.ValueRoundTrip | Frontend/Pods/nanopb/pb_encode.c:682-730 | A value, submessages included, decodes to itself over the defaults of its field, with any suffix left unread |
| RoundTrip.LeafRoundTrip | Frontend/Pods/nanopb/pb_encode.c:734-868 | For every leaf type and integer width, each field encoder followed by its decoder is the identity with any suffix left unread |
| RoundTrip.PackedRoundTrip | Frontend/Pods/nanopb/pb_decode.c:431-440 | A packed region decodes to the elements it was made from, behind those already there |
| RoundTrip.AllDefaultIsDefaults | Frontend/Pods/nanopb/pb_encode.c:215-303 | The proto3 check calls a submessage empty only if it equals the struct that decoding starts from, so that leaving it out loses nothing |
| RoundTrip.FieldRoundTrip | Frontend/Pods/nanopb/pb_encode.c:307-392 | Whatever one field emits, nothing included, brings the decoder from the fields before it to the fields up to it |
| Wire.TaggedKey | Frontend/Pods/nanopb/pb_encode.c:641-672 | The key in front of a value is eight times the tag plus 0 for the three varint types, 1 for fixed64, 5 for fixed32 and 2 for everything with a length |
| Wire.SignedOnTheWire | Frontend/Pods/nanopb/pb_encode.c:734-755 | A signed field of any width emits the shortest varint of its value sign-extended to 64 bits, ten bytes for every negative value |
| Wire.WidthDoesNotMatter | Frontend/Pods/nanopb/pb_encode.c:734-755 | Two signed fields of different widths that hold the same number emit the same bytes |
| Wire.UnsignedOnTheWire | Frontend/Pods/nanopb/pb_encode.c:757-773 | An unsigned field emits a varint of its value |
| Wire.ZigZagOnTheWire | Frontend/Pods/nanopb/pb_encode.c:775-791 | A zigzag field emits a varint of twice its value, or of minus twice its value minus one |
| Wire.FixedOnTheWire | Frontend/Pods/nanopb/pb_encode.c:607-632 | Fixed-width fields emit four or eight bytes, least significant first |
| Wire.BytesOnTheWire | Frontend/Pods/nanopb/pb_encode.c:810-868 | Strings and bytes emit their length and then themselves; only a byte string that does not fit behind a size member of four bytes is an error |
| Wire.ArraysArePacked | Frontend/Pods/nanopb/pb_encode.c:139-181 | An array of scalars that is not empty always goes out as one record of wire type 2: key, length, elements |
| Wire.LeftOutExactly | Frontend/Pods/nanopb/pb_encode.c:307-392 | A field emits nothing if and only if it is absent: required fields never; by presence, count or `which`; proto3 singular fields if they are zero or empty |
| Wire.EmptyMessageExactly | Frontend/Pods/nanopb/pb_encode.c:215-303 | The proto3 check holds of a submessage if and only if its own encoding is empty |
| Wire.SignedFromTheWire | Frontend/Pods/nanopb/pb_decode.c:1289-1324 | Signed fields of at most 32 bits take the low 32 bits of the varint as signed, 64-bit fields all of it; what does not fit is rejected |
| Wire.OldNegative | Frontend/Pods/nanopb/pb_decode.c:1297-1306 | A negative 32-bit number that was not sign-extended on the wire decodes to itself |
| Wire.UnsignedFromTheWire | Frontend/Pods/nanopb/pb_decode.c:1326-1348 | Unsigned fields take a varint below two to the number of their bits and reject all others |
| Wire.ZigZagFromTheWire | Frontend/Pods/nanopb/pb_decode.c:1350-1372 | Zigzag fields take half of an even and minus half minus one of an odd varint, if it fits |
| Wire.Fixed32FromTheWire | Frontend/Pods/nanopb/pb_decode.c:1254-1266 | Four bytes are a number with the least significant byte first; fewer are an error |
| Wire.Fixed64FromTheWire | Frontend/Pods/nanopb/pb_decode.c:1269-1286 | The same for eight bytes |
| Wire.BytesFromTheWire | Frontend/Pods/nanopb/pb_decode.c:1391-1508 | A length and that many bytes are taken if they fit: behind four bytes of size, with a terminator, or exactly; a fixed-length field takes length 0 for all zeros |
| Wire.FirstNul | Frontend/Pods/nanopb/pb_decode.c:1458-1460 | Of a string with NULs inside, the field holds what lies in front of the first |
| Wire.DamagedLeaf | Frontend/Pods/nanopb/pb_decode.c:1289-1508 | A value whose varint or length cannot be read is rejected |
| Wire.DamagedPacked | Frontend/Pods/nanopb/pb_decode.c:431-447 | A packed record with something behind its elements that is no element is rejected |
| Wire.DamagedKey | Frontend/Pods/nanopb/pb_decode.c:925-931 | A key that is no 32-bit varint ends the decode with an error |
| Wire.DamagedRegion | Frontend/Pods/nanopb/pb_decode.c:367-380 | A submessage or packed array without a 32-bit length, or with fewer bytes than announced, is rejected |
| Wire.SkipExactly | Frontend/Pods/nanopb/pb_decode.c:316-326 | An unknown value takes exactly 8 bytes for wire type 1, 4 for 5, its length and that many for 2; the wire types 3, 4, 6 and above are rejected |
| Wire.SkipsVarints | Frontend/Pods/nanopb/pb_decode.c:273-282 | For wire type 0 exactly one complete varint is passed over, however long |
| Wire.EmptyDescriptor | Frontend/Pods/nanopb/pb_decode.c:933-996 | On an empty descriptor a record with tag 0 is an error |
| Merge.ConcatenationMerges | Frontend/Pods/nanopb/pb_decode.h:70-76 | If `a` (no zero tag) and then `b` decode into the same struct, `a + b` decodes into it with the same result |
| Merge.ConcatenationExactly | Frontend/Pods/nanopb/pb_decode.c:919-1049 | If `a` reads through to its end, `a + b` decodes if and only if the records of `b` do and both together contain the required fields, and then gives what `b` makes of the struct after `a` |
| Merge.ZeroTagHides | Frontend/Pods/nanopb/pb_decode.c:305-309 | If a zero tag stops `a`, then `a + b` decodes to the struct of `a` and `b` stays unread |
| Merge.UnknownFieldsAreTransparent | Frontend/Pods/nanopb/pb_decode.c:933-962 | Inserting a complete record with an undeclared tag at any record boundary before the end changes neither success nor the struct nor what is left unread |
| Merge.LoopExtends | Frontend/Pods/nanopb/pb_decode.c:919-997 | The record loop on `a + t` goes on with `t` from the state after `a`, unless a zero tag stopped it |
| Merge.SeenIsCarried | Frontend/Pods/nanopb/pb_decode.c:988-997 | Which fields were seen before has no influence on success, struct or bytes left; it is only added to |
| Nested.SubmessagesMerge | Frontend/Pods/nanopb/pb_decode.c:1463-1485 | Two records of a required or optional submessage decode, in any context, like one record of both contents: the second is decoded into what the first has left |
| Nested.SubmessageRecord | Frontend/Pods/nanopb/pb_decode.c:411-417 | A record of a required or optional submessage is decoded into the struct that is there and marks it present; what the nested decode leaves of its region is passed over, and its failure is a failure |
| Nested.LastRecordWins | Frontend/Pods/nanopb/pb_decode.c:409-470 | For scalars, strings, bytes and unions the last record decides alone: an earlier record of the field, or of another member of its union, leaves no trace in the struct |
| Nested.WireTypeIgnored | Frontend/Pods/nanopb/pb_decode.c:401-475 | A record of a known field decodes alike with any wire type, except that an array of scalars takes wire type 2 for a packed record |
| Initial.UnmentionedIsInitial | Frontend/Pods/nanopb/pb_decode.c:812-882 | After a decode, a field that no record mentions holds its declared default, or zero, nothing or all zero bytes where none is declared, in submessages too; optional fields are absent, arrays empty, unions unused |
| Initial.StartsInitial | Frontend/Pods/nanopb/pb_decode.c:1051-1063 | `pb_decode` is the decode into the one struct in which every field holds its initial value |
| Initial.EmptyMessage | Frontend/Pods/nanopb/pb_decode.c:1006-1046 | The empty message decodes if and only if no field is required, and then to initial values everywhere |
| Initial.RequiredExactly | Frontend/Pods/nanopb/pb_decode.c:1006-1046 | A decode succeeds if and only if its records do and every required field with fewer than 64 required fields in front of it was mentioned, also when a zero tag ends the message |
| Order.OrderDoesNotMatter | Frontend/Pods/nanopb/pb_decode.c:919-997 | Swapping two neighbouring records of different fields outside a common union, anywhere in a message, changes neither success nor the struct nor what is left unread |
| Order.ReadsOwnSlot | Frontend/Pods/nanopb/pb_decode.c:401-475 | What a field makes of its bytes depends on no other field of the struct |
| Order.WritesOwnSlot | Frontend/Pods/nanopb/pb_decode.c:461-470 | Decoding a field changes no other field, except that it deselects the other members of its union |
| Packed.ChunksAppend | Frontend/Pods/nanopb/pb_decode.c:419-459 | Any mixture of packed records and element records for a repeated field appends exactly their elements in order |
| Packed.PackedEqualsUnpacked | Frontend/Pods/nanopb/pb_decode.c:419-459 | Two ways to spread the same elements over records, packed, in chunks or one by one, decode alike in any context |
| Packed.ChunksOverflow | Frontend/Pods/nanopb/pb_decode.c:431-456 | Records that carry more elements than the array has room for are rejected, however they are spread |
| Evolution.SkipUndoesEncode | Frontend/Pods/nanopb/pb_decode.c:316-326 | For every field type, skipping by wire type passes over exactly the bytes that the field's encoder emits, submessages and unterminated strings included |
| Evolution.FieldSkipped | Frontend/Pods/nanopb/pb_decode.c:933-962 | Whatever a field emits, packed, repeated or single, a descriptor that does not declare its tag reads over it without a trace |
| Evolution.AddedFieldsAreIgnored | Frontend/Pods/nanopb/pb_decode.c:933-962 | Forward compatibility: a well-formed struct of a descriptor with fields added at its end, encoded and then decoded with the shorter descriptor, gives exactly the front part of the struct |
| Evolution.MissingFieldsTakeDefaults | Frontend/Pods/nanopb/pb_decode.c:1051-1063 | Backward compatibility: a message of the shorter descriptor decodes with the longer one if and only if none of the added fields is required and tracked; each added field then holds its declared default, or zero or nothing |
| Evolution.FieldsInOrder | Frontend/Pods/nanopb/pb_encode.c:494-516 | Fields go out in the order of the descriptor: the bytes of the last field follow those of the message without it |
| FieldIterator.HistoryDoesNotMatter | Frontend/Pods/nanopb/pb_common.c:8-95 | After any sequence of `next` and `find` calls, wrap-arounds included, `pData`, `pSize` and the required-field index are a closed form of the position alone |
| FieldIterator.OffsetsAreTheLayout | Frontend/Pods/nanopb/pb.h:393-403 | For a descriptor generated from a struct layout, unions and arrays included, the closed form is the offset of the member and of its `has_`, count or `which_` companion |
| FieldIterator.NextIsClosed | Frontend/Pods/nanopb/pb_common.c:20-76 | One step of the iterator's pointer arithmetic leads from the closed form of a position to that of the next |
| FieldIterator.WritesStayInside | Frontend/Pods/nanopb/pb_decode.c:431-470 | Every entry the decoder addresses as `pData + data_size * k` lies inside the struct and outside the footprint of every field that does not share its union |
| FieldIterator.InOrder | Frontend/Pods/nanopb/pb.h:393-403 | The footprints of fields outside a common union follow each other without overlap |
| FieldIterator.FindIsClosed | Frontend/Pods/nanopb/pb_common.c:78-95 | A search of any length ends in the closed form of some position |
| FieldIterator.FieldIter.constructor | Frontend/Pods/nanopb/pb_common.c:8-18 | A new iterator stands on the first field in closed form |
| FieldIterator.FieldIter.Begin | Frontend/Pods/nanopb/pb_common.c:8-18 | Starting over puts the iterator on the first field in closed form |
| FieldIterator.FieldIter.Next | Frontend/Pods/nanopb/pb_common.c:20-76 | Goes to the next position, keeps the closed form and returns false exactly when it wraps |
| FieldIterator.FieldIter.Find | Frontend/Pods/nanopb/pb_common.c:78-95 | Terminates; succeeds if and only if a non-extension field has the tag, then stands on such a field; otherwise is back where it started |
| Required.BitmapIsCorrect | Frontend/Pods/nanopb/pb_decode.c:1024-1045 | The check of full words and of the partial word passes if and only if every one of the first 64 required fields has occurred |
| Required.MarkRequired | Frontend/Pods/nanopb/pb_decode.c:988-993 | Setting bit `index & 31` of word `index >> 5` records that one field and no other |
| Required.RequiredByIndex | Frontend/Pods/nanopb/pb_common.c:65-70 | All tracked required fields occurred if and only if all their numbers did; the numbering by position is one to one |
| Required.CheckRequired | Frontend/Pods/nanopb/pb_decode.c:1006-1046 | From any iterator position, the check returns whether all tracked required fields were seen |
| Required.CountRequired | Frontend/Pods/nanopb/pb_decode.c:1012-1025 | The seek loop finds the number of required fields, at most 64, from any iterator position |
| Required.CheckWords | Frontend/Pods/nanopb/pb_decode.c:1029-1045 | The loop over whole words and the comparison of the last bits succeed if and only if each word that the count reaches has exactly its bits below the count set |
| Decoder.DecodeNoInit | Frontend/Pods/nanopb/pb_decode.c:901-1049 | Accepts exactly what the format accepts, gives its struct and stands right behind what it used, inside its region; terminates on every input because every nested decode has strictly fewer bytes |
| Decoder.DecodeRecords | Frontend/Pods/nanopb/pb_decode.c:919-997 | Each round strictly shortens the region; the loop agrees with the format and the bitmap represents the fields seen |
| Decoder.DecodeRecord | Frontend/Pods/nanopb/pb_decode.c:933-996 | One record is skipped or decoded as the format says from any iterator position, and its field is marked |
| Decoder.MarkField | Frontend/Pods/nanopb/pb_decode.c:988-993 | After marking, the bitmap represents the fields seen and the current one |
| Decoder.DecodeStaticField | Frontend/Pods/nanopb/pb_decode.c:401-475 | Required, optional, proto3 singular, repeated, packed and oneof fields take their value, presence, count or `which` as the format says |
| Decoder.DecPackedArray | Frontend/Pods/nanopb/pb_decode.c:424-447 | Decodes a packed region element by element until it is used up; fails if an element fails or the array is full before that |
| Decoder.DecodeArrayField | Frontend/Pods/nanopb/pb_decode.c:419-459 | A repeated field takes a packed region or one more entry, and fails if the array is full |
| Decoder.Terminate | Frontend/Pods/nanopb/pb_decode.c:1458-1460 | After the terminator is stored the buffer holds, as a C string, what lies in front of the first NUL of the bytes read |
| Decoder.DecSubmessage | Frontend/Pods/nanopb/pb_decode.c:1463-1485 | The nested decode sees its declared region and nothing else, and the parent advances by exactly the prefix and the region |
| Decoder.DecodeNested | Frontend/Pods/nanopb/pb_decode.c:1475-1480 | Array entries are decoded from defaults and other submessages into what is there |
| Decoder.DecodeMessage | Frontend/Pods/nanopb/pb_decode.c:1051-1063 | Decodes over freshly initialised defaults, with no state of an earlier message left |
| Decoder.FieldSetToDefault | Frontend/Pods/nanopb/pb_decode.c:812-882 | Gives every kind of field its initial value: the declared default where there is one, otherwise zero, nothing or all zero bytes, recursively; absent, empty or unused |
| Decoder.MessageSetToDefaults | Frontend/Pods/nanopb/pb_decode.c:884-895 | The iterator visits every field once, and every field then holds its initial value |
| Decoder.DecVarintField | Frontend/Pods/nanopb/pb_decode.c:1289-1324 | Succeeds if and only if a varint is there and, cast to 64 or 32 bits, fits the field; gives that value |
| Decoder.DecUVarintField | Frontend/Pods/nanopb/pb_decode.c:1326-1348 | The same for unsigned fields |
| Decoder.DecSVarintField | Frontend/Pods/nanopb/pb_decode.c:1350-1372 | The same for zigzag fields |
| Decoder.DecodeSVarint | Frontend/Pods/nanopb/pb_decode.c:1240-1252 | Undoes the zigzag interleaving of the varint it reads |
| Decoder.CheckSigned | Frontend/Pods/nanopb/pb_decode.c:1308-1321 | Clamping and comparing succeeds if and only if the value is in the field's range and the width is 1, 2, 4 or 8 |
| Decoder.NarrowExact | Frontend/Pods/nanopb/pb_decode.c:1308-1321 | The cast to a narrower signed type changes a value if and only if it is out of that type's range |
| Decoder.DecFixed | Frontend/Pods/nanopb/pb_decode.c:1254-1286 | Or-ing shifted bytes assembles the little-endian number they stand for |
| Decoder.AssembleIsLittleEndian | Frontend/Pods/nanopb/pb_decode.c:1260-1286 | The or of the bytes shifted into place is their little-endian value, for 32 and 64 bits |
| Decoder.DecBytesField | Frontend/Pods/nanopb/pb_decode.c:1391-1426 | Succeeds if and only if the declared bytes are there and fit behind the size header; gives those bytes |
| Decoder.DecStringField | Frontend/Pods/nanopb/pb_decode.c:1428-1461 | Succeeds if and only if the bytes and a terminator fit the field; the field then holds what lies in front of the first NUL |
| Decoder.DecFixedLengthBytesField | Frontend/Pods/nanopb/pb_decode.c:1487-1508 | Takes exactly the field's size, or zero bytes for all zeros; rejects every other length |
| InputStream.IStream.constructor | Frontend/Pods/nanopb/pb_decode.c:154-176 | The stream's region is the first `size` bytes of the buffer |
| InputStream.IStream.BufRead | Frontend/Pods/nanopb/pb_decode.c:85-98 | Copies the next bytes to the destination, if there is one, touches nothing behind them and advances by their number |
| InputStream.IStream.Read | Frontend/Pods/nanopb/pb_decode.c:100-132 | Succeeds if and only if the region has the bytes; `state + bytes_left` never changes and a failed read does not move the stream |
| InputStream.IStream.ReadByte | Frontend/Pods/nanopb/pb_decode.c:136-152 | Takes exactly the first byte of the region, or fails on an empty one |
| InputStream.IStream.DecodeVarint | Frontend/Pods/nanopb/pb_decode.c:250-270 | The loop of shifts and ors accepts exactly a terminated varint of at most ten bytes and gives its base-128 sum modulo 2^64 |
| InputStream.IStream.DecodeVarint32 | Frontend/Pods/nanopb/pb_decode.c:182-247 | The loop with its 8-bit position counter does what the 32-bit rule says on every input |
| InputStream.IStream.SkipVarint | Frontend/Pods/nanopb/pb_decode.c:273-282 | Skips up to the first byte without continuation bit, whatever the length |
| InputStream.IStream.SkipString | Frontend/Pods/nanopb/pb_decode.c:284-291 | Skips a length prefix and exactly the bytes it announces |
| InputStream.IStream.DecodeTag | Frontend/Pods/nanopb/pb_decode.c:293-314 | Splits the key into tag and wire type; a zero key is reported as the end of the message, like the end of the region, not as success |
| InputStream.IStream.SkipField | Frontend/Pods/nanopb/pb_decode.c:316-326 | Skips a value of each wire type exactly and rejects the wire types that do not exist |
| InputStream.IStream.SplitOff | Frontend/Pods/nanopb/pb_decode.c:373-379 | The first bytes of a region become a region of their own and the rest stays with the parent |
| InputStream.IStream.MakeSubstream | Frontend/Pods/nanopb/pb_decode.c:367-380 | The child's region is exactly the declared bytes; child and parent together still end where the parent ended; the child has strictly fewer bytes |
| InputStream.IStream.CloseSubstream | Frontend/Pods/nanopb/pb_decode.c:382-395 | However much the child has read, the parent goes on right behind the child's region |
| Encoder.EncodeMessage | Frontend/Pods/nanopb/pb_encode.c:494-516 | Emits exactly the message's encoding to a buffer or a sizing stream, or fails if and only if there is none or it does not fit; at every depth |
| Encoder.GetEncodedSize | Frontend/Pods/nanopb/pb_encode.c:533-542 | The sizing pass counts exactly the bytes that the writing pass emits, and succeeds if and only if there is an encoding |
| Encoder.EncodeSubmessage | Frontend/Pods/nanopb/pb_encode.c:682-730 | Prefix and body agree: what is announced is exactly the size of the body that follows, or that is counted |
| Encoder.EncodeBody | Frontend/Pods/nanopb/pb_encode.c:699-729 | The second pass writes exactly as many bytes as the first counted, so that "submsg size changed" does not occur |
| Encoder.EncodeFieldAt | Frontend/Pods/nanopb/pb_encode.c:494-516 | Each round of the loop brings the output from the encoding of the fields so far to that of one field more |
| Encoder.EncodeBasicField | Frontend/Pods/nanopb/pb_encode.c:307-392 | A field is emitted, left out or rejected as its rule says |
| Encoder.EncodeArray | Frontend/Pods/nanopb/pb_encode.c:126-211 | Emits a packed record or one record per element; rejects a count above the array's size and emits nothing for none |
| Encoder.EncodePackedArray | Frontend/Pods/nanopb/pb_encode.c:140-181 | The announced size of the packed region is the size of the elements that follow, also on a sizing stream |
| Encoder.PackedSize | Frontend/Pods/nanopb/pb_encode.c:146-164 | Product and dry run both give the exact size of the packed region |
| Encoder.FixedPackedSize | Frontend/Pods/nanopb/pb_encode.c:146-153 | `4 * count` and `8 * count` are exactly what the elements take |
| Encoder.EncodePackedItems | Frontend/Pods/nanopb/pb_encode.c:173-180 | The loop emits the elements one after the other |
| Encoder.EncodeUnpackedItems | Frontend/Pods/nanopb/pb_encode.c:182-208 | The loop emits one tagged record per element |
| Encoder.CheckAllDefault | Frontend/Pods/nanopb/pb_encode.c:261-280 | The nested iterator loop returns true if and only if every field of the submessage is left out |
| Encoder.CheckDefaultAt | Frontend/Pods/nanopb/pb_encode.c:215-303 | A field counts as default by its rule: never if required, by presence, count or the content of `which`, or by value |
| Encoder.CheckNumber | Frontend/Pods/nanopb/pb_encode.c:283-302 | The byte-by-byte comparison of a scalar with zero succeeds if and only if its value is zero, for every integer width and sign |
| Encoder.WhichIsTag | Frontend/Pods/nanopb/pb_encode.c:376-388 | The `which` member holds the tag of a union member if and only if that member is in use |
| Encoder.WhichIsZero | Frontend/Pods/nanopb/pb_encode.c:230-234 | The `which` member is 0 if and only if no member of the union is in use |
| Encoder.EncodeTagged | Frontend/Pods/nanopb/pb_encode.c:641-672 | Key with the wire type of the field, then the value |
| Encoder.EncodeLeafField | Frontend/Pods/nanopb/pb_encode.c:734-868 | Emits the bytes of a scalar, string or byte value, or fails where its size does not fit or is no integer width |
| Encoder.EncodeStringField | Frontend/Pods/nanopb/pb_encode.c:831-855 | Emits the bytes in front of the terminator, looking no further than the end of the field |
| Encoder.EncodeFixed | Frontend/Pods/nanopb/pb_encode.c:607-632 | Shifting and masking emits the little-endian bytes of the number |
| Encoder.EncodeSVarint | Frontend/Pods/nanopb/pb_encode.c:596-605 | Emits the varint of the interleaved value for every signed 64-bit number |
| Encoder.EncodeTag | Frontend/Pods/nanopb/pb_encode.c:635-639 | Emits the key of a tag and a wire type |
| Encoder.EncodeString | Frontend/Pods/nanopb/pb_encode.c:674-680 | Emits the length and then the bytes |
| Sizes.SizedIfBelow | Frontend/Pods/nanopb/pb_encode.c:682-730 | In an encoding below any limit every length prefix, at every depth, is below that limit |
| OutputStream.OStream.constructor | Frontend/Pods/nanopb/pb_encode.c:84-99 | The stream may write the first `size` bytes of the buffer and has written none |
| OutputStream.OStream.BufWrite | Frontend/Pods/nanopb/pb_encode.c:72-82 | Replaces exactly the bytes under the cursor and advances by their number |
| OutputStream.OStream.Write | Frontend/Pods/nanopb/pb_encode.c:101-119 | Appends all bytes or, if the limit does not allow it, fails without writing; a sizing stream only counts |
| OutputStream.OStream.EncodeVarint | Frontend/Pods/nanopb/pb_encode.c:574-594 | Never leaves its ten-byte buffer and emits the shortest base-128 form of every 64-bit value |
| OutputStream.CollectGroups | Frontend/Pods/nanopb/pb_encode.c:585-590 | The loop leaves the 7-bit groups of the value, all with continuation bit |
| OutputStream.LastGroup | Frontend/Pods/nanopb/pb_encode.c:591 | Clearing the last continuation bit turns the groups into the varint |
| OutputStream.EmitNext | Frontend/Pods/nanopb/pb_encode.c:101-119 | Two writes in a row are one write of the concatenation, for success and for failure |
| Varint.EncVarintMeaning | Frontend/Pods/nanopb/pb_encode.c:574-594 | What the encoder emits is one complete varint that stands for the value |
| Varint.EncVarintShortest | Frontend/Pods/nanopb/pb_encode.c:574-594 | No complete varint for the value is shorter |
| Varint.EncVarintFits | Frontend/Pods/nanopb/pb_encode.c:576 | Every 64-bit value takes at most ten bytes |
| Varint.DecVarintAccepts | Frontend/Pods/nanopb/pb_decode.c:250-270 | The 64-bit decoder accepts if and only if some prefix of at most ten bytes is a complete varint, and gives its sum modulo 2^64 and the rest |
| Varint.VarintRoundTrip | Frontend/Pods/nanopb/pb_decode.c:250-270 | Decoding undoes encoding for every 64-bit value, with any suffix left unread |
| Varint.Var32RefinesVar64 | Frontend/Pods/nanopb/pb_decode.c:182-242 | On every complete varint of at most ten bytes the 32-bit decoder rejects or returns the 64-bit result modulo 2^32 with the same bytes read |
| Varint.Varint32RoundTrip | Frontend/Pods/nanopb/pb_decode.c:182-242 | It accepts the encoding of every unsigned 32-bit value and gives the value |
| Varint.Varint32SignExtended | Frontend/Pods/nanopb/pb_decode.c:216-224 | It accepts the encoding of every sign-extended negative 32-bit value and gives its low word |
| Varint.Var32Exact | Frontend/Pods/nanopb/pb_decode.c:206-237 | A varint of at most five bytes is accepted if and only if its value is below 2^32 |
| Varint.Var32ExactLong | Frontend/Pods/nanopb/pb_decode.c:211-231 | A varint of six to ten bytes is accepted if and only if every group from the sixth on is zero or extends the sign of a low word whose top bit is set |
| Varint.Var32DropsBits | Frontend/Pods/nanopb/pb_decode.c:205-237 | A varint of six to ten bytes is rejected or stands for a 32-bit value, unsigned or sign-extended, if and only if its tail fails the test, or is zero below a fifth group of at most four bits, or is the sign extension above a fifth group whose top four bits are set |
| Varint.Var32AcceptsTooMuch | Frontend/Pods/nanopb/pb_decode.c:211-237 | There is a varint of six bytes that stands for 2^32 and is accepted |
| Varint.Var32TakesPadding | Frontend/Pods/nanopb/pb_decode.c:211-231 | Zero padded with any number of continuation bytes is accepted as zero, whatever the wrap-around of the bit position; the 64-bit decoder accepts it if and only if it has at most ten bytes |
| Varint.Var32WrapsAround | Frontend/Pods/nanopb/pb_decode.c:211-231 | The bit position wraps around at 256: behind enough empty groups a last group is shifted by seven times its number modulo 256 and decodes to that |
| ZigZag.EncodeBijective | Frontend/Pods/nanopb/pb_encode.c:596-605 | nanopb's zigzag is a bijection between signed and unsigned 64-bit values, inverted by its decoder |
| ZigZag.EncodeMeaning | Frontend/Pods/nanopb/pb_encode.c:596-605 | Non-negative values become the even and negative ones the odd numbers, in order of magnitude |
| ZigZag.DecodeMeaning | Frontend/Pods/nanopb/pb_decode.c:1240-1252 | The decoder takes even numbers to non-negative and odd ones to negative values, in range |
| ZigZag.GpbEncodeMeaning | Frontend/Pods/Protobuf/objectivec/GPBUtilities_PackagePrivate.h:125-137 | The shift and exclusive-or form computes the same interleaving at every width |
| ZigZag.GpbDecodeMeaning | Frontend/Pods/Protobuf/objectivec/GPBUtilities_PackagePrivate.h:97-119 | Logical shift and exclusive or with the negated low bit undo the interleaving at every width |
| ZigZag.GpbBijective | Frontend/Pods/Protobuf/objectivec/GPBUtilities_PackagePrivate.h:97-137 | The Objective-C functions are inverse to each other in both directions, at 32 and 64 bits |
| ZigZag.GpbAgreesWithNanopb | Frontend/Pods/Protobuf/objectivec/GPBUtilities_PackagePrivate.h:97-137 | On all 64-bit values the two implementations of the repository agree, encoding and decoding |
| TripStrings.SplitOfJoin | Backend/src/Trip/UpdateTripStatus.java:73-77 | Java's `split` of a comma-terminated text gives back exactly the ids it was written from |
| TripStrings.SplitExactly | Backend/src/Trip/NewTrip.java:104 | Java's `split` of any text: every piece in front of the last that is not empty stays, empty ones included, the empty ones behind it go, and a text without comma is its own only piece |
| TripStrings.EveryText | Backend/src/Trip/NewTrip.java:104 | Every text is of that form |
| TripStrings.SplitOfNames | Backend/src/Trip/NewTrip.java:104 | Names with commas between them, with any number of commas behind the last, are split into exactly those names |
| TripStrings.JoinInjective | Backend/src/Trip/UpdateTripStatus.java:103-109 | Different lists of ids have different texts |
| TripStrings.MissingCommaFuses | Backend/src/Trip/deleteTrip.java:101-110 | If any list is stored without its last comma, appending any id makes one id of the last and the new one |
| TripStrings.AppendsExactly | Backend/src/Trip/NewTrip.java:123-128 | Appending an id to a stored text adds exactly that id to the list if and only if the text is empty or ends in a comma |
| TripSweep.Database.UpdateTripStatus | Backend/src/Trip/UpdateTripStatus.java:61-282 | The step-by-step servlet leaves exactly the user's row changed, and to what the phases on the texts make of it: complete, broken off by a failed lookup or date, or broken off between the two updates of a phase |
| TripSweep.Database.RunPhase | Backend/src/Trip/UpdateTripStatus.java:64-133 | One phase reads, sorts and stores as the phase on texts says; a failed lookup or date leaves all users as they were, a failure between the updates leaves only the first column stored |
| TripSweep.Database.Classify | Backend/src/Trip/UpdateTripStatus.java:95-110 | The loop fails if and only if a date cannot be read; otherwise its two texts list the ids that stay and that move, in order |
| TripSweep.Database.LookUp | Backend/src/Trip/UpdateTripStatus.java:85-94 | Succeeds if and only if every id is a trip, and gives the dates in order |
| TripSweep.Database.Read | Backend/src/Trip/UpdateTripStatus.java:118-125 | The text of the column, empty for NULL and for an unknown user |
| TripSweep.Database.Write | Backend/src/Trip/UpdateTripStatus.java:113-116 | Replaces one column of one user and nothing else |
| TripSweep.Database.NewTrip | Backend/src/Trip/NewTrip.java:77-152 | Stores the trip and appends its id once for each invited name and once for the owner, and changes no other user |
| TripSweep.Database.Append | Backend/src/Trip/NewTrip.java:109-128 | Appends one id to the current column of one user |
| TripRuns.SweepRefines | Backend/src/Trip/UpdateTripStatus.java:64-273 | On well-formed texts a sweep is the sweep on the lists they stand for, and leaves well-formed texts |
| TripRuns.PhaseRefines | Backend/src/Trip/UpdateTripStatus.java:78-133 | The same for a single phase, so also when a later one fails |
| TripRuns.SweepConserves | Backend/src/Trip/UpdateTripStatus.java:78-273 | The multiset of ids over the three lists is unchanged, also if a lookup or a date aborts the sweep between phases |
| TripRuns.BrokenSweepLoses | Backend/src/Trip/UpdateTripStatus.java:111-132 | A database failure between the two updates of a phase keeps all texts well formed and loses exactly the ids that the phase was to move; the ids are conserved if and only if there are none |
| TripRuns.OneTripLost | Backend/src/Trip/UpdateTripStatus.java:111-132 | A user whose only trip is pending and has begun is left without any trip if the first phase breaks off between its updates |
| TripRuns.CutLoses | Backend/src/Trip/UpdateTripStatus.java:111-132 | The same for a single phase |
| TripRuns.UnbrokenSweep | Backend/src/Trip/UpdateTripStatus.java:64-273 | Without a database failure the servlet's sweep is the sweep that the laws on lists and runs are about |
| TripRuns.SweepCompletes | Backend/src/Trip/UpdateTripStatus.java:85-273 | A sweep completes if and only if every pending or current id is a trip with a begin date, and those that have begun, pending ones before today and current ones by today, have an end date |
| TripRuns.SweepClassifies | Backend/src/Trip/UpdateTripStatus.java:103-255 | After a completed sweep pending trips begin today or later, and current trips have begun by today and end today or later |
| TripRuns.SweepSends | Backend/src/Trip/UpdateTripStatus.java:103-255 | After a completed sweep the number of times a trip is pending, current and past is given exactly by its dates and by where it was before: unstarted trips are pending, started ones current, and those that have started and ended join the history |
| TripRuns.SweepIsIdempotent | Backend/src/Trip/UpdateTripStatus.java:64-273 | Repeating a completed sweep on the same day completes and changes no text |
| TripRuns.RunsAreSafe | Backend/src/Trip/NewTrip.java:103-152 | Over any run of new trips and sweeps with days that do not go back, all texts stay well formed, history grows only at its end, and no occurrence of a swept trip is lost or added: each only moves from pending to current to history |
| TripRuns.RunRefines | Backend/src/Trip/NewTrip.java:103-152 | Over any run the texts stay well formed and the lists they stand for are those of the same run on lists |
| TripRuns.StepRefines | Backend/src/Trip/NewTrip.java:103-152 | The same for one new trip or one sweep |
| TripRuns.CreateExactly | Backend/src/Trip/NewTrip.java:103-152 | A new trip adds to each user's current list exactly one entry for each time the user is among the invited names and one more for the owner, and changes nothing else |
| TripRuns.CreateNamed | Backend/src/Trip/NewTrip.java:103-152 | For a text that lists names with commas between them, each user gets exactly as many entries of the trip as the list names the user, the first and the last name included, and the owner one more |
| TripRuns.SweptTripsMoveForward | Backend/src/Trip/UpdateTripStatus.java:145-203 | After a completed sweep every pending or current trip is in the table of trips, and in any later run none of the user's trips in that table is lost, duplicated or moved backwards |
| TripRuns.StepIsSafe | Backend/src/Trip/NewTrip.java:103-152 | One new trip or one sweep keeps everything that the safety of runs needs |
| TripRuns.AppendForAllPlus | Backend/src/Trip/NewTrip.java:108-130 | The loop over the invited names adds one entry for each time a user is named and keeps every text well formed |

## Left out

- Codec.EncodeToBuffer: says nothing about the bytes in front of `bytes_written` when encoding fails; the code leaves the part that fitted there.
- Codec.DecodeFromBuffer: the struct after a failed decode is unspecified; the code leaves the fields decoded up to the error in it.
- Codec.EncodeThenDecode: messages with a length prefix of 2^32 or more in a buffer of that size, because the decoder reads lengths of at most 32 bits.
- Theorems.MessageRoundTrip: messages with a length prefix of 2^32 or more, for the same reason.
- Theorems.RoundTripExactly: the same messages.
- Theorems.DecodesExactly: the same messages.
- Decoder.DecodeNoInit: structs that are not well formed before the call; the code reads their counts and strings as they are.
- Theorems.Canonicalisation: the second decode of the same messages; nothing bounds the encoding of a decoded struct by the bytes it was decoded from.
- Encoder.EncodeMessage: sizes are unbounded naturals under the condition that no length prefix reaches 2^64; `Sizes.SizedIfBelow` shows that it holds for every message whose own encoding is shorter.
- Decoder.DecodeStaticField: the destination is a value of slots, without padding and aliasing; which addresses the code writes to is proved apart, in `FieldIterator.WritesStayInside`.
- Decoder.DecPackedArray: appends to the sequence of entries in place of writing to `pData + data_size * size`, for the same reason.
- FieldIterator.WritesStayInside: that a C union is as large as its largest member, and that `has_`, count and `which_` members lie outside the fields, are properties of the compiler.
- InputStream.IStream.MakeSubstream: the rule that a parent is not used while a child is open is what its callers keep, it is not enforced.
- TripSweep.Database.UpdateTripStatus: the date of today is read once a sweep; the code reads the clock for each trip.
- TripSweep.Database.RunPhase: the date of today is a parameter, read once; a failure of the database in front of the first update is not told apart from a failed lookup, because it leaves the same state.
- TripSweep.Database.NewTrip: the id of a new trip is a parameter; `MAX(TripID)` and its races between requests are not modelled. Runs assume that the id is new.
- TripRuns.RunsAreSafe: runs have no sweeps in which the database fails between two updates.
- TripRuns.SweptTripsMoveForward: says nothing about ids in the history that are not in the table of trips; a later trip could be given such an id.
- Stale bytes: a union is seen through its `which` member, which is 0 or the tag of a member, a byte array through its size and a string up to its first NUL.
- `read_raw_value`, callbacks, custom stream callbacks and everything that runs in them.
- Pointer fields, `allocate_field`, and what `pb_release` and its relatives do to pointer fields. The model treats pointer and callback fields as invalid descriptors.
- Extension fields and fixed-count repeated fields.
- A default pointer on a proto3 singular field.
- Error messages, `PB_WITHOUT_64BIT`, `PB_BUFFER_ONLY`, the old callback style and `PB_FIELD_16BIT`.
- `pb_encode_negative_varint`, which only the 32-bit-only build uses.
- `float` and `double`: the bits of fixed-width fields are carried unread.
- `GPBSetHasIvarField` and the float conversions of the Objective-C header.
- SQL, JDBC, JSON and servlet plumbing. The two tables are maps.
- Dates are day numbers, absent where the text cannot be parsed.
- `deleteTrip` is not a step of the runs, because it stores lists without their last comma.
- Friend lists, restaurants, chat, accounts and pictures.
