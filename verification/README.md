# Verification of omni-schema's codecs, framing, delivery and projection

omni-schema converts between data formats through one tree, the UIR node. This project models the parts
of it that work on bytes, trees and small state, in Dafny, and proves what they promise. Loops, cursors,
buffers and in-place patches of the source are methods and classes here; each is proved against a
specification function, and the results below are lemmas about those functions.

Layers, from the bottom up:

- `ByteStrings`, `Bits`, `Utf8`, `Decimals`, `Floats`, `Conversions`: bytes, byte orders, bitwise operators on
  numbers, UTF-8, decimal numerals, widening of float patterns and Go's integer conversions, each with what it
  computes in terms of numbers, characters or bits.
- `Uir`, `KeyOrder`: the tree and its order by key.
- `CborItems`, `CborFormat`, `CborNodes`: the items of RFC 8949, their shortest serialisation, a reference
  decoder without limits, and the relation between trees and items. `CborEncoder` and `CborParser` are the
  writer with its budget and the reader with its cursor; `CborTheorems`, `CborStability`, `CborOrder`,
  `CborKeyOrder` and `CborMeanings` hold the results.
- `WsFrames`, `WsMessages`, `WsTheorems`, `WsSizes`: WebSocket frames (RFC 6455 section 5.2), messages made of
  fragments (section 5.4), soundness and completeness of the reader, and its size limit. `WsEndpoint` is the state machine of
  writing and closing (sections 5.5.1 and 7.4), `WsConn` the connection object.
- `MsgPackFormat`, `MsgPackNodes`, `MsgPackLengths`, `MsgPackMeanings`, `MsgPackCodec`: MessagePack. `CodecChain`
  relates it to CBOR.
- `Varints`: base-128 and zigzag integers of Protobuf and Avro. `ProtoFields`, `ProtoMessages`,
  `ProtoNumbers`, `ProtoIntegers`, `ProtoCodec`: flat Protobuf messages.
- `Segments`, `PlainValues`, `Columns`, `Records`: what the columnar formats share. `Hdf5Format`,
  `Hdf5Theorems`, `Hdf5Directory`, `Hdf5Records`, `Hdf5Codec` and `ParquetFormat`, `ParquetTheorems`, `ParquetCodec`: the
  two formats; `ColumnTypes`: what they make of values, type by type.
- `Projection`, `ProjectionConforms`, `ProjectionNulls`, `ProjectionStable`, `ProjectionValues`, `ProjectionNames`,
  `Projector`: projection onto a schema.
- `DeliveryQueue`, `EventDedup`, `RateLimits`: the broker's queues, event deduplication and the request
  limiter, over whole runs.

Conventions. A Go string or byte slice is a sequence of bytes. Floats are IEEE 754 bit patterns. Integers
carry their width in their type. A dynamically typed value is a datatype with one constructor per Go type.
Library behaviour that is not modelled (`fmt.Sprint`, rounding, `strconv` in the projection, the order of a
map walk, random mask keys) is a parameter or an arbitrary choice, so that the results hold for all of it.

Where the code is at odds with what one might expect, the model follows the code, and lemmas give an input and
the exact condition:

- CBOR maps are sorted by the bytes of the key, not by the encoded key that section 4.2.1 of RFC 8949
  orders by (`CborKeyOrder.LongKeyComesFirst`). The two agree exactly if, in every record sorted by key, the
  lengths of the keys never decrease (`CborKeyOrder.DeterministicIff`). Heads are the shortest in either case.
- A WebSocket control frame in the middle of a message counts against the 5 MiB of the message while it is
  read: frames that make up a message but for their sizes are delivered exactly if the running total, pings and
  pongs included, stays within the limit (`WsSizes.DeliveredIffSmall`), and a ping of one byte behind a fragment of
  5 MiB fails (`WsSizes.PingTipsTheScale`). The second check of the length of control frames (websocket.go:336) can
  never fail and is not repeated.
- `closeSent` is only ever set together with `closed`, so the test for it never decides anything
  (`WsEndpoint.ApplyIsSane`).
- The Avro reader accepts eleven bytes and drops bits above the 64th (`Varints.AvroDropsBits`,
  `Varints.ReadersAgree`).
- MessagePack loses trees with a length of 2^32 or more anywhere, and no others, however map keys
  are rendered (`MsgPackLengths.ComesBackIff`); a string of exactly 2^32 bytes is written with the length 0
  (`MsgPackLengths.LongStringIsLost`).
- With a proto type that does not decide the wire form of a 32-bit fixed or float node, `encodeProtoField` calls
  itself on the same node without end (`ProtoFields.RunsOutIff`, `ProtoMessages.MessageRunsOutIff`), as for a float
  with the proto type `int32` (`ProtoMessages.FloatAsInt32RunsOut`).
- A record value that answers to the name of one field and to the number of another is written for both
  (`ProtoMessages.WrittenForBoth`), and `ProtoMessages.MessageRoundTrip` says what is read then.
- Under a schema without proto types, `sint32`, `sint64`, `fixed64` and `sfixed64` fields are written in their own wire
  form and read back as something else; all other numbers and booleans come back
  (`ProtoIntegers.UntypedComesBackIff`).
- HDF5 loses the number of records if none of them has a field (`Hdf5Records.CountSurvivesIff`), reads back a
  `uint32` as 0 (`Hdf5Theorems.Uint32IsLost`) and sends its offset patches astray on names of 65536 bytes or
  more (`Hdf5Directory.PatchesRightIff`). Parquet returns bytes as strings (`ParquetTheorems.BytesBecomeText`)
  and a boolean in an int32 column as 0, which HDF5 keeps as 0 or 1 (`ColumnTypes.BooleanCells`).
  `RecordsRoundTripIff` of either format says exactly which records come back.
- A required reference does not always keep its obligation in a projection: a list element that is a required
  reference accepts null if the named type does (`ProjectionNulls.NullElementIsAccepted`,
  `ProjectionNulls.ReferenceElementIff`), and so does the field of a record that is resolved by its key alone
  (`ProjectionNulls.RequiredReferenceIff`). Null for a record becomes a record
  (`ProjectionNulls.NullBecomesRecordIff`). A value under a boolean tag need not be a boolean
  (`ProjectionConforms.CoercedTypeIff`, `ProjectionConforms.NumberUnderBoolean`). A null element of a list of scalars
  becomes the zero value of their type, required or not (`ProjectionNulls.NullElementBecomesZero`).
- Projecting a result again can fail if a required reference is resolved by its key alone
  (`ProjectionStable.UnnamedRequiredFails`), and changes the result under a schema of type null or fails
  (`ProjectionStable.NullSchemaChanges`). `ProjectionStable.ProjectionIsIdempotent` is about schemas with neither.
- Twice the limit of the rate limiter, less one, passes within any half-open interval of one window, and with its
  closing instant twice the limit; both happen (`RateLimits.HalfOpenBoundIsSharp`,
  `RateLimits.ClosedBoundIsSharp`).
- With two publishers or more the newest frame of a queue can be lost (`DeliveryQueue.NewestMayBeLost`,
  `DeliveryQueue.NothingIsLostIffAlone`).

## Model

| member | source | states |
|---|---|---|
| CborEncoder.AppendCbor | internal/codec/cbor.go:39-128 | Writing a node succeeds exactly if the tree is encodable and its item count and depth fit what is left of the budget; it appends the shortest serialisation of the tree's item and spends exactly its item count. |
| CborEncoder.AppendArray | internal/codec/cbor.go:85-95 | The elements of an array are written in order behind the shortest head, with the same account of budget and depth. |
| CborEncoder.CollectFields | internal/codec/cbor.go:51-65 | Keeps the fields that are not missing, in order; fails exactly on a nil field or a repeated key, which a set of seen keys detects. |
| CborEncoder.AppendRecord | internal/codec/cbor.go:50-84 | Writes a record as a map sorted by key; succeeds exactly if there is no nil field, no repeated key, every field can be written and count and depth fit. |
| CborEncoder.AppendField | internal/codec/cbor.go:68-82 | One key and value: the key costs one item, must be UTF-8, and the value is one level deeper. |
| CborEncoder.GenerateCbor | internal/codec/cbor.go:19-22 | The writer accepts exactly the encodable trees within 100000 items and 64 levels and returns the serialisation of their item. |
| CborParser.Parser.Take | internal/codec/cbor.go:156-163 | The cursor moves by the count exactly if that many bytes are left; otherwise it stays. |
| CborParser.Parser.Read | internal/codec/cbor.go:165-299 | Reading succeeds exactly if the reference decoder accepts an item here that fits the limits; it returns the item's node, moves behind the item and counts its items. |
| CborParser.Parser.ReadArray | internal/codec/cbor.go:226-269 | With the two early rejections, an array is read exactly when the decoder without them accepts its elements within the limits; elements are keyed by index. |
| CborParser.Parser.ReadMap | internal/codec/cbor.go:226-269 | The same for maps, whose keys must be distinct text. |
| CborParser.ParseCbor | internal/codec/cbor.go:137-148 | The reader accepts exactly the inputs that decode, without any precheck, to one item within the limits with nothing behind it, and returns that item's tree. |
| CborTheorems.EncodeThenParse | internal/codec/cbor.go:39-128 | For every tree the writer accepts, the reader accepts the output and returns the tree's normal form: maps sorted, missing fields dropped, integers widened, elements keyed by index, nulls explicit. |
| CborTheorems.EncodingIsInjective | internal/codec/cbor.go:39-128 | Two trees with the same encoding have the same normal form. |
| CborTheorems.EncodingIsShortest | internal/codec/cbor.go:24-37 | No input that decodes to the same item is shorter than what the writer emits. |
| CborFormat.SerializeIsShortest | internal/codec/cbor.go:24-37 | The shortest heads make the serialisation of an item the shortest of all its encodings. |
| CborTheorems.PrefixesAreRejected | internal/codec/cbor.go:137-148 | No proper prefix of an accepted document is accepted. |
| CborFormat.DecodeExtends | internal/codec/cbor.go:165-299 | Bytes behind a complete item never change how it is decoded. |
| CborFormat.SerializedDecodes | internal/codec/cbor.go:165-299 | A well-formed item is decoded from its serialisation, whatever follows. |
| CborFormat.DecodedIsWellFormed | internal/codec/cbor.go:203-299 | Only well-formed items are decoded: UTF-8 texts, distinct keys, negative integers within 64 bits. |
| CborNodes.NodeOfItemIsNormal | internal/codec/cbor.go:203-299 | The node read for the item of a tree is the normal form of that tree. |
| CborStability.ParseThenEncode | internal/codec/cbor.go:165-299 | Every tree the reader returns can be written again. |
| CborStability.EncodingIsStable | internal/codec/cbor.go:39-128 | Parsing and writing again what the writer produced gives the same bytes. |
| CborStability.AcceptedInputsStabilise | internal/codec/cbor.go:137-148 | The re-encoding of any accepted input is a fixed point of parsing and writing, which the fuzz test samples. |
| CborOrder.EncodingIgnoresOrder | internal/codec/cbor.go:66 | Reordering the fields of records at any level does not change the encoding. |
| CborKeyOrder.EncodedLess | internal/codec/cbor.go:66 | Encoded keys are in order exactly if the shorter key comes first and keys of one length are in the order of their bytes. |
| CborKeyOrder.DeterministicIff | internal/codec/cbor.go:66-82 | The maps that are written, at every level, have the key order of section 4.2.1 of RFC 8949 if and only if in every record, sorted by key, the lengths of the keys never decrease. |
| CborKeyOrder.LongKeyComesFirst | internal/codec/cbor.go:66 | A record with the keys "aa" and "b" is written in the other order. |
| KeyOrder.SortIsOrderFree | internal/codec/cbor.go:66 | Sorting distinctly keyed fields gives the same list whatever order they come in. |
| KeyOrder.LessIff | internal/codec/cbor.go:66 | One key comes before another exactly if it is a proper prefix of it or has the smaller byte where they first differ. |
| Utf8.ValidUtf8Iff | internal/codec/cbor.go:74-76 | Exactly the encodings of sequences of Unicode scalar values, as section 3 of RFC 3629 defines them, are accepted as UTF-8. |
| CborMeanings.MeaningComesBack | internal/codec/cbor.go:39-299 | For every tree the writer accepts, what is read back means what the tree says: integers as numbers, records as maps of the fields that are not missing, nothing for nil, null and missing nodes. |
| CborMeanings.ParsedIsNumbered | internal/codec/cbor.go:226-269 | In every accepted document, at every level, child i of an array is keyed by the decimal numeral of i, and the array has the type of its first element as its element type. |
| CborMeanings.DepthLimit | internal/codec/cbor.go:44-46 | Nested arrays are read and written exactly up to 64 levels. |
| CborMeanings.ItemLimit | internal/codec/cbor.go:40-43 | An array of n items is read and written exactly if n is below 100000. |
| Decimals.DecimalIsNumeral | internal/codec/cbor.go:245 | The key of an element consists of digits that stand for its position, without a zero in front. |
| Decimals.ParseUintIff | internal/codec/protobuf.go:85-95 | A text is read as a number exactly if it consists of digits that stand for a number below 2^64. |
| Floats.HalfExpansionIsExact | internal/codec/cbor.go:276-291 | Every finite half-precision number, subnormal ones included, is expanded to a double of the same sign and exactly the same magnitude. |
| Floats.SpecialHalf | internal/codec/cbor.go:276-291 | Infinities keep their sign, and every NaN becomes the one of math.NaN. |
| Floats.SingleExpansionIsExact | internal/codec/msgpack.go:265-270 | Every finite single-precision number, subnormal ones included, is widened to a double of the same sign and exactly the same magnitude. |
| Floats.SpecialSingle | internal/codec/msgpack.go:265-270 | Infinities are widened to infinities and NaNs to NaNs, of the same sign. |
| WsFrames.MaskedTwice | internal/network/websocket.go:349-353 | Masking with the same key twice gives the payload back. |
| WsFrames.MaskFlipsBits | internal/network/websocket.go:349-353 | Masking flips exactly the bits that are set in the key byte. |
| WsFrames.StartIsLegalIff | internal/network/websocket.go:280-334 | The first two bytes are accepted exactly if the reserved bits are 0, the opcode is 0, 1, 2, 8, 9 or 10, the mask is as the role demands, and control frames are whole and of at most 125 bytes. |
| WsFrames.ViolationCodes | internal/network/websocket.go:280-345 | A bad start of a frame is a violation 1002, too much data is 1009. |
| WsFrames.LegalFrameReads | internal/network/websocket.go:267-353 | Every well-formed frame, of any size, is read back from its bytes, for all three length forms and both roles, unless it is too big where it stands, which fails the read. |
| WsFrames.ReadFrameIsLegal | internal/network/websocket.go:280-348 | Whatever is read is a legal frame: no reserved bits, known opcode, mask as the role demands, short unfragmented control frames, within 5 MiB. |
| WsFrames.ReadFrameConsumes | internal/network/websocket.go:267-353 | Reading a frame consumes exactly that frame's bytes. |
| WsMessages.ReadIsComplete | internal/network/websocket.go:259-403 | From any legal sequence of fragments with pings and pongs in between, the reader delivers the first opcode with all payloads joined (or the Close frame), answers each ping once and in order, and consumes exactly those frames. |
| WsMessages.ReadIsSound | internal/network/websocket.go:259-403 | On any input and for either role, whatever is delivered comes from a legal frame sequence whose bytes are exactly the bytes consumed. |
| WsTheorems.DeliversExactlyMessages | internal/network/websocket.go:259-403 | A first read on an open connection delivers something if and only if the input starts with a legal message. |
| WsTheorems.MessagesAreUnambiguous | internal/network/websocket.go:259-403 | Two ways to cut an input into a legal message give the same message, the same pongs and the same rest. |
| WsTheorems.DeliveredIsBounded | internal/network/websocket.go:336-345 | Only text, binary and close are delivered, never over 5 MiB, and close payloads never over 125 bytes. |
| WsSizes.DeliveredIffSmall | internal/network/websocket.go:336-345 | Frames that make up a message but for their sizes are delivered if and only if every payload, also of a ping or pong in between, fits 5 MiB on top of the data in front of it; otherwise the read fails as too big. |
| WsSizes.PingTipsTheScale | internal/network/websocket.go:259-403 | A text of 5 MiB in a fragment with an empty final one behind it is delivered; with a ping of one byte between the two it is too big. |
| WsTheorems.ConversationArrives | internal/network/websocket.go:435-489 | What one endpoint writes, the other reads: the same messages in the same order with the Close last, and one pong per ping. |
| WsTheorems.FirstByteMeans | internal/network/websocket.go:21-29 | On the wire 0x81 starts a text, 0x82 a binary message and 0x88 a Close frame; 0x89 is answered with its payload, and 0x8A is passed over. |
| WsConn.MaskInPlace | internal/network/websocket.go:349-353 | The loop over the payload XORs every byte with its key byte. |
| WsConn.Conn.WriteMessage | internal/network/websocket.go:408-489 | Writes one frame in the shortest length form, masked by clients only; nothing on a closed connection or for a control payload over 125 bytes. |
| WsConn.Conn.CloseWithCode | internal/network/websocket.go:518-541 | Sends the Close frame if none was sent and it fits, and closes the transport in either case; nothing on a closed connection. |
| WsConn.Conn.Close | internal/network/websocket.go:543-551 | Closes the transport once. |
| WsConn.Conn.HandleCloseFrame | internal/network/websocket.go:494-509 | Answers a close payload and closes the transport. |
| WsConn.Conn.NextFrame | internal/network/websocket.go:266-353 | Reads one frame off the input with the checks in the order of the source. |
| WsConn.Conn.ReadMessage | internal/network/websocket.go:259-403 | The loop delivers, fails and writes pongs exactly as the recursive specification of the reader says; on a violation the connection is closed with the matching code. |
| WsEndpoint.CloseHandshake | internal/network/websocket.go:435-551 | Over every run of writes, reads and closes the transport is closed at most once, there is at most one Close frame besides those the caller writes, none before the transport is closed, and no control frame over 125 bytes. |
| WsEndpoint.ClosedStaysSilent | internal/network/websocket.go:435-441 | Once closed, no operation writes anything or closes the transport again. |
| WsEndpoint.ReplyPayload | internal/network/websocket.go:494-509 | The reply to any close payload, by its code: the payload itself if the code is in 1000-4999 outside 1004-1006 and 1015-2999 and the reason is UTF-8, 1000 if it is empty, and else 1002 with a reason that names the fault, within 125 bytes. |
| WsEndpoint.EchoedIffAllowed | internal/network/websocket.go:205-216 | A payload with a readable reason is echoed if and only if its code is in 1000-1003, 1007-1014 or 3000-4999; otherwise the reply has the code 1002. |
| WsEndpoint.ViolationIsAnswered | internal/network/websocket.go:239-257 | A violation on an open endpoint is answered with a Close frame, 1009 for too much data and 1002 for all else, behind the pongs that were due, and the transport is closed. |
| WsEndpoint.ReplyIsValid | internal/network/websocket.go:221-237 | The reply is itself a valid close payload. |
| WsEndpoint.CloseIsAnswered | internal/network/websocket.go:494-541 | On an open endpoint, a Close frame read off the wire is answered with one valid Close frame and the transport is closed. |
| MsgPackCodec.GenerateMessagePack | internal/codec/msgpack.go:12-153 | Writing succeeds exactly for trees of supported types without nil map fields and gives the packed bytes. |
| MsgPackCodec.ParseMessagePackValue | internal/codec/msgpack.go:164-373 | Every lead byte is read as the format table says; the rest of the input is returned. |
| MsgPackCodec.ParseMessagePackArray | internal/codec/msgpack.go:375-388 | The loop reads exactly the announced number of elements or fails. |
| MsgPackCodec.ParseMessagePackMap | internal/codec/msgpack.go:390-419 | The loop reads exactly the announced number of fields or fails; other keys than strings are rendered. |
| MsgPackCodec.ParseMessagePack | internal/codec/msgpack.go:156-162 | A document is accepted only if nothing is left over. |
| MsgPackFormat.IntHeadReads | internal/codec/msgpack.go:80-91 | A signed integer is read back across all its size boundaries. |
| MsgPackFormat.UintHeadReads | internal/codec/msgpack.go:68-79 | An unsigned integer is read back across all its size boundaries, as a signed one up to 127. |
| MsgPackFormat.StrHeadReads | internal/codec/msgpack.go:20-30 | The length of a string is read back across all its size boundaries below 2^32. |
| MsgPackFormat.HeadIsShortest | internal/codec/msgpack.go:20-120 | No bytes that announce the same integer or length are fewer than those that are written. |
| MsgPackMeanings.MeaningComesBack | internal/codec/msgpack.go:12-419 | Every tree whose values are of the types its tags say, with integers of any integer type, and whose lengths fit, is read back with its meaning. |
| MsgPackMeanings.IntegerKeyIsRendered | internal/codec/msgpack.go:390-419 | A map whose key is an integer is read as a record whose key is that integer rendered. |
| MsgPackMeanings.FloatComesBack | internal/codec/msgpack.go:265-270 | The document of a finite float32 is read as the double of the same sign and exactly the same magnitude. |
| MsgPackNodes.PackedReads | internal/codec/msgpack.go:164-419 | From the bytes of a tree with lengths below 2^32 the reader returns the tree's normal form and stops exactly behind them, whatever follows. |
| MsgPackNodes.PackThenParse | internal/codec/msgpack.go:156-162 | A whole document written from a tree parses to the tree's normal form. |
| MsgPackLengths.ComesBackIff | internal/codec/msgpack.go:12-162 | However map keys are rendered, a tree of supported types comes back in its normal form if and only if every length that is written for it - of strings, byte strings, keys, arrays and maps, at any level - is below 2^32. |
| MsgPackLengths.LongStringIsLost | internal/codec/msgpack.go:20-32 | A string of 2^32 bytes is written with the length 0, and the document is not accepted. |
| CodecChain.CborHop | internal/codec/cbor.go:39-299 | A CBOR hop of a plain tree succeeds and keeps its meaning, its number of items and its depth. |
| CodecChain.MessagePackHop | internal/codec/msgpack.go:12-419 | A MessagePack hop of a plain tree succeeds and keeps its meaning, its number of items and its depth. |
| CodecChain.ChainKeepsMeaning | internal/codec/msgpack.go:12-419 | Any finite chain of CBOR and MessagePack hops from a parsed CBOR tree with lengths below 2^32 succeeds and keeps the abstract value: mathematical integers, key-to-value maps, widened floats; items and depth never grow. |
| CodecChain.ChainKeepsMeaningOfDocuments | internal/codec/cbor.go:137-148 | The same, with as many items and as deep, for every accepted CBOR document of less than 4 GiB. |
| Varints.EncodeVarint | internal/codec/protobuf.go:260-268 | The loop writes the base-128 digits, least significant first. |
| Varints.DecodeVarint | internal/codec/protobuf.go:518-532 | Accepts exactly the encodings of at most ten bytes with a value below 2^64 and returns the exact sum; no bits are lost in the shifts and ors. |
| Varints.VarintRoundTrip | internal/codec/protobuf.go:260-268 | Every 64-bit number is read back from its encoding with any suffix. |
| Varints.VarintIsShortest | internal/codec/protobuf.go:260-268 | No accepted encoding of a number is shorter than the one written. |
| Varints.ZigZagRoundTrip | internal/codec/protobuf.go:424-426 | Zigzag coding, with its shifts and exclusive ors, is a bijection between signed and unsigned 64-bit numbers. |
| Varints.WriteAvroLong | internal/codec/avro.go:375-378 | Appends the varint of the zigzag code. |
| Varints.ReadAvroLong | internal/codec/avro.go:380-395 | Accepts terminators up to the eleventh byte and returns the zigzag value of the sum modulo 2^64. |
| Varints.LongRoundTrip | internal/codec/avro.go:375-395 | Every int64 is read back with any suffix. |
| Varints.ReadersAgree | internal/codec/avro.go:380-395 | The Avro reader agrees with the Protobuf one on all that the latter accepts, and accepts more exactly when at most eleven bytes carry more than 64 bits. |
| Varints.AvroDropsBits | internal/codec/avro.go:380-395 | Such an input: ten bytes for 2^64 are read as 0. |
| ProtoFields.FieldComesBack | internal/codec/protobuf.go:97-167 | A well-typed value of any of the fifteen scalar kinds is read back with its type and value, whatever follows; negative int32 values by sign extension. |
| ProtoIntegers.NumberComesBack | internal/codec/protobuf.go:97-167 | An integer of any dynamic type under any integer proto type comes back as a number that the field's type has room for, the same modulo 2^32 or 2^64, and the very same if there is room for it. |
| ProtoIntegers.OtherValueComesBack | internal/codec/protobuf.go:115-157 | Of any value a bool, string or double field keeps only one of its own type, a bytes field also a text, and a float field also a rounded double; what it does not keep comes back as false, empty or 0. |
| ProtoIntegers.EnumComesBack | internal/codec/protobuf.go:392-402 | A number in an enum field comes back under the name the schema has for it, or else as the number modulo 2^32. |
| ProtoIntegers.UntypedComesBackIff | internal/codec/protobuf.go:203-238 | Under a schema without proto types a number or boolean comes back with its type and value if and only if its type is not sint32, sint64, fixed64 or sfixed64. |
| ProtoIntegers.UnknownVarintReads | internal/codec/protobuf.go:356-422 | A varint that no schema knows is read as an int64 named by its number. |
| ProtoIntegers.UnknownFixedReads | internal/codec/protobuf.go:428-478 | Eight bytes that no schema knows are read as a double, four as an unsigned fixed number, named by their number. |
| ProtoFields.RunsOutIff | internal/codec/protobuf.go:97-167 | Any number of calls runs out on a field - the source never returns - if and only if it is a 32-bit fixed or float node whose proto type is an integer type of varints, enum or unknown. |
| ProtoMessages.MessageRunsOutIff | internal/codec/protobuf.go:34-70 | A message is never finished if and only if some field that is written has a value which is such a node once it takes from that field the proto type it lacks, and no earlier field with the same value has given it one before (without a schema: if and only if some child is such a node). |
| ProtoMessages.FloatAsInt32RunsOut | internal/codec/protobuf.go:162-163 | A float with the proto type int32, of its own or taken over from the schema, runs out after any number of calls. |
| ProtoMessages.WrittenForBoth | internal/codec/protobuf.go:34-60 | One value under the key "7" is written for the field "7" and for the field numbered 7, and read back as two fields. |
| ProtoNumbers.TagIsNumber | internal/codec/protobuf.go:85-95 | Field i has the number that its annotation is the decimal numeral of, or else i + 1. |
| ProtoNumbers.FieldHasItsNumber | internal/codec/protobuf.go:34-70 | Whatever is written for field i, its first varint is eight times that number plus the wire type. |
| ProtoNumbers.TypedStarts | internal/codec/protobuf.go:115-157 | The wire type is that of the proto type: 0 for varints and booleans, 1 for eight bytes, 2 for texts and bytes, 5 for four bytes. |
| ProtoNumbers.NumberIsRead | internal/codec/protobuf.go:287-310 | What stands under the number of field i is read as field i. |
| ProtoNumbers.UnnumberedTags | internal/codec/protobuf.go:51 | Fields of a schema without numbers are numbered from 1, and always tell each other apart. |
| ProtoNumbers.FirstFieldIsOne | internal/codec/protobuf.go:51 | The record of one int64 field without number and with the value 5 is written as 08 05. |
| ProtoMessages.PositionIff | internal/codec/protobuf.go:36-50 | A field takes the last child of its name, or else the last one that is named by its number. |
| ProtoMessages.WrittenIff | internal/codec/protobuf.go:48-50 | The value that a field takes is written unless it is missing or null. |
| ProtoCodec.EncodeProtoMessage | internal/codec/protobuf.go:34-70 | Writes the present fields in schema order and changes nothing of the record but the two annotations it takes over from the schema. |
| ProtoCodec.ParseProtobufMessage | internal/codec/protobuf.go:287-354 | The loop reads field after field until the input is used up or a field is malformed. |
| ProtoCodec.BuildFieldsByTag | internal/codec/protobuf.go:288-295 | The last of several fields with one number wins; number 0 is never found. |
| ProtoMessages.MessageRoundTrip | internal/codec/protobuf.go:34-354 | With distinct nonzero field numbers below 2^61, a well-typed flat record parses to exactly its present, non-null fields in schema order with the same types and values; a value that answers to the name of one field and the number of another is written and read for both. |
| RateLimits.RateLimiter.Admit | cmd/server/main.go:129-152 | One request updates only its own client's entry and passes exactly if the window's count is within the limit. |
| RateLimits.WithinWindow | cmd/server/main.go:129-152 | Before a window ends exactly what is left of the limit passes, as far as there are requests. |
| RateLimits.ClientsAreIndependent | cmd/server/main.go:129-152 | Over every run the requests of one client that pass do not depend on other clients' traffic. |
| RateLimits.TwoWindowsAtMostInRun | cmd/server/main.go:129-152 | In any stretch of a run shorter than one window at most twice the limit less one passes for one client, and in a stretch of exactly one window at most twice the limit, whatever happened before. |
| RateLimits.HalfOpenBoundIsSharp | cmd/server/main.go:129-152 | From the empty limiter there is a run with a stretch shorter than a window in which twice the limit less one passes. |
| RateLimits.ClosedBoundIsSharp | cmd/server/main.go:129-152 | And one with a stretch of exactly one window in which twice the limit passes. |
| RateLimits.NextWindowOpensOnTime | cmd/server/main.go:135-140 | Rejected requests leave the end of the window alone, and from then on a request always passes. |
| EventDedup.Subscription.Remember | internal/stream/subscription.go:74-88 | An id is accepted unless it is remembered; a full memory is emptied first. |
| EventDedup.Subscription.AppendBatch | internal/stream/broker.go:140-150 | Items are handed over in batches of the configured size, none lost and none reordered. |
| EventDedup.MemoryIsBounded | internal/stream/subscription.go:74-88 | At most 4097 ids are remembered after any run. |
| EventDedup.ForgetsAll | internal/stream/subscription.go:74-88 | The bound is reached: 4097 distinct ids are all remembered, and the next new one makes all of them forgotten and accepted again. |
| EventDedup.RarelyAcceptedTwice | internal/stream/subscription.go:74-88 | Of N accepted ids no single one is accepted more than ceil(N / 4097) times. |
| EventDedup.ResetInBetween | internal/stream/subscription.go:74-88 | Two acceptances of one id always have a reset between them. |
| DeliveryQueue.Queue.Enqueue | internal/stream/broker.go:152-167 | Undisturbed, a frame put into a full queue replaces the oldest one. |
| DeliveryQueue.EveryRunIsSound | internal/stream/broker.go:152-167 | For any number of publishers and any interleaving: at most 100 frames queued, removed frames and queue make up the send log, delivered frames are a part of it in order without duplicates, and every published frame is sent, lost or still in hand. |
| DeliveryQueue.SinglePublisherKeepsNewest | internal/stream/broker.go:152-167 | A single publisher loses no frame on the way in, and its newest frame is in the queue or was delivered last. |
| DeliveryQueue.LostWhenOvertaken | internal/stream/broker.go:152-167 | A publisher that has made room loses its frame if and only if, before it sends, the others put in as many frames as there was room for and as have left the queue since; nothing put in by others, nothing lost. |
| DeliveryQueue.NewestMayBeLost | internal/stream/broker.go:152-167 | For any number of publishers from two on, a run with distinct frames in which the one frame lost is the last one published. |
| DeliveryQueue.NothingIsLostIffAlone | internal/stream/broker.go:152-167 | No run loses a frame on the way in if and only if there is at most one publisher. |
| Columns.BuildColumns | internal/codec/hdf5.go:48-66 | One column per key in the order of first appearance, with the type of the first value and one cell per record. |
| Columns.HeadsAreFirstRow | internal/codec/hdf5.go:48-58 | If all records have the same keys, in any order, the columns are the fields of the first record. |
| PlainValues.ReadAll | internal/codec/hdf5.go:283-337 | Reads exactly the announced number of values or fails. |
| PlainValues.ValuesRead | internal/codec/hdf5.go:283-337 | Values of the type of their column are read back whatever follows. |
| PlainValues.AllReadFit | internal/codec/hdf5.go:283-337 | Whatever bytes are read, every value has the dynamic type of its column. |
| PlainValues.EncodedLength | internal/codec/hdf5.go:223-281 | Numbers take 4 or 8 bytes by their type, booleans one, texts and bytes four more than their length. |
| Segments.PartsTile | internal/codec/hdf5.go:84-92 | Parts laid end to end follow each other without gaps, each at its offset. |
| Hdf5Codec.PatchOffsets | internal/codec/hdf5.go:82-93 | The walk over the finished directory, by the sixteen-bit lengths written in it, patches in place exactly what the recursive walk says, or fails where the source slices out of range. |
| Hdf5Directory.PatchesRightIff | internal/codec/hdf5.go:82-93 | The walk fills in exactly the offset of every payload if and only if every name is shorter than 65536 bytes. |
| Hdf5Directory.LongNameGoesAstray | internal/codec/hdf5.go:84-92 | With one name of 65536 bytes the only offset lands in the name and its slot stays blank. |
| Hdf5Codec.GenerateHdf5 | internal/codec/hdf5.go:37-116 | The file is superblock, patched directory and payloads, for all documents and names; it fails where the source panics. |
| Hdf5Codec.ParseHdf5 | internal/codec/hdf5.go:122-202 | The reader follows the directory to the columns and turns them back into records. |
| Hdf5Directory.EntryHoldsOffset | internal/codec/hdf5.go:84-92 | In the bytes of the file, the directory entry of column i holds the offset 56 + directory length + sizes of the earlier payloads. |
| Hdf5Directory.PayloadsTile | internal/codec/hdf5.go:104-114 | The payloads tile the file behind the directory up to its end, each at its offset. |
| Hdf5Directory.EndOfFile | internal/codec/hdf5.go:101-107 | The file starts with the signature of HDF5, and its superblock says where the directory starts and where the file ends, which is at its own length. |
| Hdf5Theorems.ColumnsRoundTrip | internal/codec/hdf5.go:122-170 | Every column is read back through its offset. |
| Hdf5Theorems.ValueComesBackIff | internal/codec/hdf5.go:226-281 | A value comes back if and only if it has the dynamic type of the kind it is written as, and its length fits. |
| Hdf5Theorems.StoredComesBack | internal/codec/hdf5.go:226-337 | Whatever the values, every column comes back with what is left of them when they are written as its type. |
| Hdf5Theorems.Uint32IsLost | internal/codec/hdf5.go:226-237 | A uint32 in an int32 column comes back as 0. |
| Hdf5Records.RecordsRoundTripIff | internal/codec/hdf5.go:37-202 | Records with the same keys, in any order, come back - as many, each with every key, type and value - if and only if their values have the types the format supports and the directory can describe their columns (names below 65536 bytes). The records of the parsed tree are counted as the writer would count them. |
| Hdf5Records.CountSurvivesIff | internal/codec/hdf5.go:163-166 | The number of records survives if and only if there are none or some record has a field. |
| Hdf5Records.EmptyRecordsAreLost | internal/codec/hdf5.go:163-166 | Of records without fields none comes back, which loses some exactly if there were any. |
| ParquetCodec.WriteChunks | internal/codec/parquet.go:87-104 | Every chunk is written behind the previous one and its place noted in the column. |
| ParquetCodec.GenerateParquet | internal/codec/parquet.go:66-119 | The file is magic number, chunks, footer, footer length and magic number, also without rows. |
| ParquetCodec.ParseParquet | internal/codec/parquet.go:125-219 | The reader finds the footer from the end and through it every column. |
| ParquetTheorems.FooterDescribes | internal/codec/parquet.go:106-115 | Entry i of the footer, as it is found from the end of the file and read from its bytes, has the name, type and length of chunk i and the place where that chunk lies. |
| ParquetTheorems.ChunksTile | internal/codec/parquet.go:84-119 | The chunks tile the bytes between the leading magic number and the footer. |
| ParquetTheorems.TableRoundTrip | internal/codec/parquet.go:125-196 | Row count and every column are read back, with or without rows. |
| ParquetTheorems.ValueComesBackIff | internal/codec/parquet.go:285-339 | A value comes back if and only if it has the dynamic type of the kind it is written as, and its length fits. |
| ParquetTheorems.StoredComesBack | internal/codec/parquet.go:285-390 | Whatever the values, every column comes back with what is left of them when they are written as its type. |
| ParquetTheorems.BytesBecomeText | internal/codec/parquet.go:325-338 | Bytes come back as a string of the same bytes. |
| ParquetTheorems.RecordsRoundTripIff | internal/codec/parquet.go:66-219 | Records with the same keys come back - as many, each with every key, type and value - if and only if their values have the types the format supports (bool, int32, int64, float, double, string) and their keys are below 65536 bytes. |
| ParquetTheorems.CountSurvives | internal/codec/parquet.go:198-219 | The number of records survives whatever they hold, also without fields. |
| ParquetTheorems.NoRecordsRoundTrip | internal/codec/parquet.go:68-77 | A document without records comes back without records. |
| ColumnTypes.SupportedTypes | internal/codec/parquet.go:268-283 | HDF5 keeps exactly int32, int64, float, double, bool, string and bytes values under tags of their own type, Parquet the same without bytes; texts below 2^32 bytes. |
| ColumnTypes.Int64Cells | internal/codec/parquet.go:305-306 | Any integer in an int64 column is kept modulo 2^64, and exactly if an int64 has room for it. |
| ColumnTypes.Int32Cells | internal/codec/parquet.go:293-304 | In an int32 column int32 and int64 values, in Parquet also uint32 ones, are kept modulo 2^32, and exactly if an int32 has room for them; other integers become 0. |
| ColumnTypes.BooleanCells | internal/codec/hdf5.go:226-237 | A boolean in an int32 column is kept as 0 or 1 by HDF5 and becomes 0 in Parquet. |
| ColumnTypes.DoubleCells | internal/codec/hdf5.go:255-262 | A finite float32 in a double column keeps its sign and magnitude. |
| ColumnTypes.TextCells | internal/codec/parquet.go:325-338 | In a text column nothing becomes the empty text and bytes are kept by Parquet and rendered by HDF5. |
| ColumnTypes.Hdf5CellComesBack | internal/codec/hdf5.go:223-337 | Every cell of a file is read back as what its value becomes. |
| ColumnTypes.ParquetCellComesBack | internal/codec/parquet.go:285-390 | The same for Parquet. |
| ColumnTypes.ParquetEnds | internal/codec/parquet.go:115-117 | A file starts and ends with PAR1, behind the length of the footer that stands in front of it. |
| ColumnTypes.RecordsOfDocument | internal/codec/parquet.go:221-237 | An array is a list of records, a map with one of four root names around a single map is that map, and any other node is a record itself. |
| Projector.Project | internal/uir/project.go:82-111 | Projection ends on every data tree, however the named types of the schema refer to each other, and gives what the specification says. |
| Projector.ProjectAllFields | internal/uir/project.go:123-168 | The loop over the schema's fields projects them in order and collects the keys of the data they were found under. |
| Projector.CollectUnknown | internal/uir/project.go:170-179 | The unknown fields are the children of the data under no such key. |
| Projector.ProjectArrayNode | internal/uir/project.go:184-218 | The loop over the elements projects records and references and coerces all others. |
| ProjectionConforms.ResultConforms | internal/uir/project.go:82-251 | With unknown fields ignored, a successful projection has the schema's fields in the schema's order with the resolved types, and values of their dynamic types but for booleans, at every level. Null and absence stand only for what the resolved schema leaves optional; a required field of a record that names its type is never null or absent, while list elements are held to the resolved type alone. |
| ProjectionConforms.CoercedTypeIff | internal/uir/project.go:336-448 | A coerced value has the dynamic type of its tag if and only if the tag is not a boolean, or there is no value, or the value is a boolean, an int64 or a string. |
| ProjectionValues.IntegerIsKeptIff | internal/uir/project.go:368-398 | An integer coerced to an integer type fails if and only if the type has no room for it and losses are not permitted; otherwise it is the same number, or permissively the same modulo 2^32 or 2^64. |
| ProjectionValues.ThreeBillionOverflows | internal/uir/project.go:374-378 | 3000000000 for an int32 fails under the safe policy and is truncated under the permissive one. |
| ProjectionValues.BooleanIsNumber | internal/uir/project.go:493-530 | A boolean coerced to any integer type is 0 or 1. |
| ProjectionValues.NumberIsBoolean | internal/uir/project.go:428-441 | An int64 coerced to a boolean is true unless it is 0. |
| ProjectionValues.TextIsRead | internal/uir/project.go:493-530 | A text is coerced to an integer or boolean like the number or boolean it is read as, and fails if it is not read as one. |
| ProjectionValues.DoubleIsRounded | internal/uir/project.go:531-552 | A double is coerced to a signed integer like the int64 it is rounded to, if it is. |
| ProjectionValues.BytesAndTexts | internal/uir/project.go:450-492 | Bytes stay bytes and become the text they are read as, a text becomes the bytes it is read as, and any other value under a string tag is rendered. |
| ProjectionValues.DoubleIsExact | internal/uir/project.go:412-417 | A finite float32 becomes the double of exactly its sign and magnitude, and a double stays as it is. |
| ProjectionValues.StrictFloatIsExact | internal/uir/project.go:399-411 | Strictly, a finite double is narrowed only if the result has exactly its sign and magnitude. |
| ProjectionValues.NothingBecomesZero | internal/uir/project.go:648-673 | Where there is nothing to coerce, numbers are 0, booleans false and texts empty. |
| ProjectionValues.SuitingDataIsKept | internal/uir/project.go:82-251 | Data that suits its schema, at every level and through references, is projected to the same data whatever the policies: the same values, elements in order, and members under the same keys. |
| ProjectionNames.FoundIsFirst | internal/uir/node.go:89-102 | A name stands for the first type of that name in the schema, from top to bottom. |
| ProjectionNames.TargetCombines | internal/uir/project.go:140-150 | A reference takes over type, elements, children and default of the type it names, and keeps its key, cardinality and annotations. |
| ProjectionNames.ReferenceStandsFor | internal/uir/project.go:266-279 | A reference stands for the first type that its annotation names, or without one its key; for itself if there is none. |
| ProjectionNames.ElementsAreMade | internal/uir/project.go:194-216 | Elements are projected onto the first child of the list if that is a map or a reference, under the name of the list with "_item" behind it, and else coerced to the element type under their own keys. |
| ProjectionNames.LookupPrecedence | internal/uir/project.go:292-308 | A field is filled from the last child of its name, or else of its number, or else of its alias, and under exact matching from nothing else. |
| ProjectionNames.LookupMatches | internal/uir/project.go:306-319 | Otherwise from a child whose name matches, and from none only if no name that is visited matches. |
| ProjectionNames.MatchesIff | internal/uir/project.go:309-334 | Names match exactly if they agree in the letters that are left without underscores and hyphens, in lower case, or are equal under folding where the policy asks for it. |
| ProjectionNames.RequiredIff | internal/uir/project.go:236 | A schema is required by its cardinality or by the annotation nonNull with the text true. |
| ProjectionNames.MissingBecomes | internal/uir/project.go:220-251 | Missing data becomes the default, marked as such, or else an error if it is required, or else a null if nulls are asked for, or else nothing. |
| ProjectionNames.ResultIsStamped | internal/uir/project.go:253-264 | A result has the name it was asked for and the annotations, cardinality, default and element type of its resolved schema. |
| ProjectionConforms.NumberUnderBoolean | internal/uir/project.go:336-448 | An int32 stays an int32 under a boolean tag. |
| ProjectionConforms.RequiredCarriesOver | internal/uir/project.go:140-150 | A required reference that is resolved by its annotation stays required. |
| ProjectionNulls.NothingIff | internal/uir/project.go:82-111 | Some data projects to null or nothing if and only if the resolved schema is not required and either a scalar or without a default. |
| ProjectionNulls.RequiredReferenceIff | internal/uir/project.go:123-168 | A required reference is never null or absent as the field of a record if and only if it is resolved by its annotation, if at all, or the type found by its key is required (or is a record with a default). |
| ProjectionNulls.ReferenceElementIff | internal/uir/project.go:194-206 | As an element, a reference gives null for some data if and only if the named type is not required and is a scalar, or nulls are emitted for missing data without a default; its own cardinality plays no part. |
| ProjectionNulls.NullElementIsAccepted | internal/uir/project.go:194-206 | A list of required references to an optional enum, as a GraphQL list [Color!]! is lowered, accepts null. |
| ProjectionNulls.NullElementBecomesZero | internal/uir/project.go:207-214 | A null element of a list of scalars becomes the zero value of their type, required or not, and stays null only if that type is null. |
| ProjectionNulls.NullBecomesRecordIff | internal/uir/project.go:113-168 | Null for a record type, required or not, becomes a record if and only if no field of the type is required without a default; otherwise the projection fails. |
| ProjectionStable.CoercedStays | internal/uir/project.go:336-448 | Coercing a coerced value to the same type changes nothing. |
| ProjectionStable.ProjectionIsIdempotent | internal/uir/project.go:82-251 | Projecting the result again changes nothing, if unknown fields are ignored and missing ones left out, and no schema, at any level, has a default, is of type null, has fields whose names clash, or has a required reference that is resolved by its key alone. |
| ProjectionStable.UnnamedRequiredFails | internal/uir/project.go:123-168 | A required reference without annotation, marked as missing, can be left out by the first projection and fail the second. |
| ProjectionStable.NullSchemaChanges | internal/uir/project.go:82-111 | Under a schema of type null any present value becomes a present null, which the second projection marks as null, or rejects if it is required. |

## Left out

- Node is a value: the parent link, the type expression and sharing of nodes are not represented. Where the source would dereference nil or slice out of range, the model fails.
- Error texts are not modelled, except the reasons that are sent in Close frames.
- WebSocket: the HTTP upgrade, deadlines, the pinger, write errors of the transport and opcodes above 15 passed to WriteMessage. Locks are taken as given: every operation is one step.
- WsConn.Conn.ReadMessage: does not say what is left of the input when nothing is delivered, because the connection is then closed or drained.
- Utf8: go's decoder is modelled by the table of well-formed sequences; normalisation of names in the projection is modelled on bytes of well-formed UTF-8.
- Protobuf: nested and repeated fields, enum value names and decoding without a schema (it guesses) are a parameter of the model. Length prefixes of 2^63 or more make the source slice out of range.
- Floating-point rounding: conversions of a float64 to integers or float32 are parameters; ProjectionStable.ProjectionIsIdempotent asks of them only that rounding undoes widening and gives no signalling NaN.
- HDF5: files of 2^64 bytes or more, and row counts that overflow a machine word.
- Parquet: columns ordered by a schema, and slices that reach past the end of the data into spare capacity.
- Projection: the conversion report, schema compilation caches and JSON text of defaults.
- The rest of the Avro container, Cap'n Proto, JSON, OData, GraphQL, the schema languages and their lexers, the registry, telemetry and HTTP routing: they rest on library calls or would add only easy members.
- Broker: building frames, registry lookups and subscription bookkeeping; only the queue, the deduplication and the batching are modelled.
