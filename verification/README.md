# Verified model of nanopb and Alamofire's request machinery

This project models the two vendored libraries of the QUIZ application that hold real algorithms and proves
properties of the model.

**nanopb** encodes and decodes Protocol Buffers messages. A message description is a list of fields
(`Schema`); a cursor walks it and wraps around (`FieldCursor`). What the encoder emits and the decoder reads is
given by functions on bytes (`Wire`, `Scalars`, `Encoding`, `Decoding`, `Messages`), and the C code is modelled by methods
over stream objects that are proved to do exactly that (`OutputStream`, `PbEncode`, `InputStream`, `PbDecode`,
`RequiredBitmap`). On top of the functions stand the laws of the format: the merge of two messages (`MergedMessages`)
and that decoding performs it, with the round trip as a case (`RoundTrip`); locality, unknown fields and packed
arrays (`Merging`), and arrays spread among other fields (`Interleaving`); what a decoder can store
(`DecodedContents`), what it starts from (`InitialContents`), which streams it accepts (`FieldsMet`) and what it keeps
(`DecodedOver`); the converse of the round trip (`Reencoding`); and what a caller with a buffer can rely on
(`Nanopb`). `WireFormat` says byte by byte what stands on the wire. The configuration is that of the application:
32-bit sizes (`PB_FIELD_32BIT`), static allocation. The 8-bit bit position of the 32-bit varint decoder wraps around as it
does in C.

**Alamofire** is a set of lock-protected state machines. Each is modelled by an object whose methods are the
lock sections, and by runs in which lock sections, dispatched blocks and callbacks of any number of threads
interleave freely:

- the credential refresh of `AuthenticationInterceptor` (`Authentication`, `AuthenticationRuns`,
  `AuthenticationAnswers`, `AuthenticationDecisions`, `AuthenticationOrder`,
  `AuthenticationRefreshes`);
- the response-serializer pipeline of `Request` with its retries (`RequestPipeline`, `RequestRuns`,
  `RequestRetries`);
- the completion counter of `DataStreamRequest` (`StreamRequest`, `StreamRuns`, `StreamOrder`);
- the map between requests and tasks and the session's gate on completions (`TaskMap`);
- the multipart encoder: framing and its reader (`MultipartFraming`), boundary flags, input streams and output
  files (`MultipartEncoding`, `MultipartOutcomes`), and the form object (`MultipartForm`).

Some things a reader might expect do not hold for all inputs. The model says when they do:

- a string member survives a round trip if and only if it holds no zero byte and leaves room for its terminator
  (`Nanopb.StringsLost` has one of each kind that does not);
- two encodings one behind the other are merged if and only if the counts together fit their arrays at every
  depth and the description does not have just one array without a count (`RoundTrip.FullArrayTwice`,
  `RoundTrip.FixedArrayTwice`);
- encoding a decoded message gives the bytes it came from if and only if no written proto3 submessage holds
  nothing but unions with foreign tags (`Reencoding.ForeignUnionShrinks`);
- among the response handlers registered before the completions are taken, one is called, exactly once, if and only
  if it was registered before the pipeline was found empty; one registered between the two lock sections of
  `processNextResponseSerializer` is accepted and never called (`RequestRuns.HandlerLost`);
- a refresh is of the credential held when `adapt` starts it; when `retry` does, which reads the credential
  before it takes the lock, if and only if the value held equals the value read
  (`AuthenticationRefreshes.ReplacedCredentialRefreshed`);
- a form is framed correctly if and only if no part but the last was ever the last one encoded, because no
  boundary flag is cleared (`MultipartEncoding.EncodedAgain`); and it is read back if and only if its parts are
  clean (`MultipartFraming.DelimiterInBody`, `MultipartFraming.ColonInName`);
- a file gets the bytes of the form if and only if every write asked for finds room, and an error is reported if
  and only if one of them fails, so a stream without space loses bytes silently
  (`MultipartEncoding.NoSpaceGoesUnreported`); and a part of the wrong length is refused in memory but accepted
  in a file. The documentation of `writeEncodedData(to:)` mentions neither.

Verify with `dafny verify dfyconfig.toml`.

## Model

| member | source | states |
|---|---|---|
| `RoundTrip.MessageRoundTrip` | QUIZ/Pods/nanopb/pb_decode.c:1078-1090 | Every well-formed message of every valid description, nested to any depth, is encoded without error, and decoding those bytes consumes all of them and yields the message with absent fields at their defaults. |
| `RoundTrip.MessageMerges` | QUIZ/Pods/nanopb/pb_decode.c:928-1076 | Decoding the encoding of a well-formed message into any message that a decoder can have left merges it, exactly when its counts fit the arrays behind what they hold, at every depth, and fails otherwise; the round trip is the case of the defaults. |
| `RoundTrip.LoopMerges` | QUIZ/Pods/nanopb/pb_decode.c:946-1024 | The field loop on an encoding, wherever it is taken up and whatever follows: it merges exactly when there is room and no array without a count is gone on with when full. |
| `RoundTrip.EncodingsConcatenate` | QUIZ/Pods/nanopb/pb_decode.h:70-78 | Decoding two encodings one behind the other gives the second message merged into the first, exactly when the counts together fit at every depth and the description does not have just one array without a count, and fails otherwise. |
| `RoundTrip.FixedArrayTwice` | QUIZ/Pods/nanopb/pb_decode.c:990-1031 | A message with one array without a count, accepted once and refused twice in a row. |
| `RoundTrip.FullArrayTwice` | QUIZ/Pods/nanopb/pb_decode.c:455-464 | A message with a full counted array, accepted once and refused twice in a row. |
| `RoundTrip.ClashExactly` | QUIZ/Pods/nanopb/pb_decode.c:993-1010 | A second message goes on in the array that the first ended with exactly when there is just one array without a count. |
| `RoundTrip.FieldsMerge` | QUIZ/Pods/nanopb/pb_decode.c:946-1024 | From any position on, the remaining encoded fields are merged exactly when there is room for each of them. |
| `RoundTrip.FieldMerges` | QUIZ/Pods/nanopb/pb_decode.c:406-483 | One encoded field changes only the slot it owns, into its merge, or fails for want of room. |
| `RoundTrip.ValueMerges` | QUIZ/Pods/nanopb/pb_decode.c:1519-1541 | Any well-formed item is read back from its encoding with the bytes behind it unread; a submessage is merged into the one there, or into the defaults in an array. |
| `RoundTrip.TaggedMerges` | QUIZ/Pods/nanopb/pb_decode.c:455-464 | Array entries with a tag each, submessages included, are appended in order exactly as long as they fit. |
| `RoundTrip.ArrayMerges` | QUIZ/Pods/nanopb/pb_decode.c:424-464 | The same for an array as the encoder writes it, packed or not. |
| `RoundTrip.MergedComplete` | QUIZ/Pods/nanopb/pb_decode.c:1026-1072 | After an encoding every required field has been met and the last array without a count is full. |
| `RoundTrip.AbsentField` | QUIZ/Pods/nanopb/pb_encode.c:341-426 | A field that is not written is never required and leaves its slot as it was. |
| `MergedMessages.MergeIntoDefaults` | QUIZ/Pods/nanopb/pb_decode.c:1078-1090 | Merging a well-formed message into the defaults gives the message, and there is always room. |
| `MergedMessages.Proto3DefaultCanon` | QUIZ/Pods/nanopb/pb_encode.c:240-337 | A proto3 singular field that the encoder leaves out is equal to its default, through submessages at any depth, so nothing is lost by leaving it out. |
| `Messages.ScalarRoundTrip` | QUIZ/Pods/nanopb/pb_decode.c:1328-1517 | Booleans, integers of every width, fixed-width integers, bytes and strings are read back, with the bytes behind them unread. |
| `Messages.PackedRoundTrip` | QUIZ/Pods/nanopb/pb_decode.c:430-449 | A packed payload appends its items exactly as long as they fit the array, and is refused otherwise. |
| `Messages.PackedChunk` | QUIZ/Pods/nanopb/pb_decode.c:424-454 | A packed field, which may be empty, is appended exactly when it fits, in an array with a count or without. |
| `Messages.SingleEntry` | QUIZ/Pods/nanopb/pb_decode.c:455-464 | An entry with its own tag is appended exactly when there is room. |
| `DecodedContents.DecodedFits` | QUIZ/Pods/nanopb/pb_decode.c:1078-1090 | Whatever bytes are accepted, at any depth arrays hold no more entries than they have room for, bytes and strings leave room for their header or terminator, and integers are of their width. |
| `DecodedContents.ContentsFit` | QUIZ/Pods/nanopb/pb_decode.c:928-1076 | Decoding into contents that fit leaves contents that fit. |
| `DecodedContents.FieldFits` | QUIZ/Pods/nanopb/pb_decode.c:406-483 | So does decoding one field, and a union then holds the member decoded. |
| `DecodedContents.ScalarFits` | QUIZ/Pods/nanopb/pb_decode.c:1339-1564 | What is decoded for one item fits its member. |
| `Schema.DefaultsFit` | QUIZ/Pods/nanopb/pb_decode.c:839-922 | The defaults of every valid description fit it. |
| `Reencoding.DecodedEncodesBack` | QUIZ/Pods/nanopb/pb_encode.c:528-550 | The converse of the round trip: encoding what was decoded from an encoding gives the same bytes if and only if no proto3 singular submessage was written that holds nothing but unions with tags of no member; otherwise it gives fewer bytes. |
| `Reencoding.ForeignUnionShrinks` | QUIZ/Pods/nanopb/pb_encode.c:240-337 | A well-formed message for which it gives fewer bytes. |
| `Nanopb.StringSurvivesExactly` | QUIZ/Pods/nanopb/pb_decode.c:1481-1517 | A string member round-trips if and only if it holds no zero byte and leaves room for its terminator. |
| `Nanopb.StringComesBack` | QUIZ/Pods/nanopb/pb_decode.c:1481-1517 | What becomes of any string member: cut at its first zero byte, refused when full without one, and itself otherwise. |
| `Nanopb.StringsLost` | QUIZ/Pods/nanopb/pb_encode.c:875-899 | A string with a zero byte inside that comes back short, and a full one that is refused. |
| `Reencoding.MessageShrinks` | QUIZ/Pods/nanopb/pb_encode.c:528-550 | Normalising a well-formed message never makes its encoding longer, at any depth, and leaves it equal under exactly that condition. |
| `Reencoding.HollowNormal` | QUIZ/Pods/nanopb/pb_encode.c:240-337 | After normalisation the proto3 default test finds exactly the fields that hold nothing, among them all it found before. |
| `Reencoding.UnionNormal` | QUIZ/Pods/nanopb/pb_encode.c:410-421 | A which-tag survives the round trip exactly when it names a member of its union. |
| `Nanopb.NullTerminatedRoundTrip` | QUIZ/Pods/nanopb/pb_encode.c:557-565 | A message followed by a zero tag is read back, and the bytes after the terminator stay in the stream. |
| `Nanopb.DelimitedRoundTrip` | QUIZ/Pods/nanopb/pb_decode.c:1107-1120 | A length-delimited message is read back, and the bytes after it stay in the stream. |
| `Nanopb.EndsWithoutTerminator` | QUIZ/Pods/nanopb/pb_encode.c:528-550 | No encoding of a well-formed message contains a zero tag at field level. |
| `Nanopb.ExactBufferCriterion` | QUIZ/Pods/nanopb/pb_encode.c:74-124 | On a buffer stream of m bytes an encoding of n bytes succeeds exactly when n <= m; on every outcome nothing at or past the reported count changes and what lies before it is a prefix of the full encoding. |
| `Nanopb.EncodeToBuffer` | QUIZ/Pods/nanopb/pb_encode.c:528-550 | The same for the encoder run on a caller's buffer. |
| `Nanopb.WellFormedInMemory` | QUIZ/Pods/nanopb/pb_encode.c:528-550 | Every well-formed message meets the encoder's preconditions, at any depth. |
| `Merging.ConcatenationMerges` | QUIZ/Pods/nanopb/pb_decode.c:928-1076 | If the first bytes are complete fields, decoding the concatenation equals decoding the second bytes into the result of the first, going on in an array without a count that the first ended with; it succeeds exactly when the second are accepted, both together hold every tracked required field, and the last array without a count is full. |
| `Merging.TwoMessagesInTurn` | QUIZ/Pods/nanopb/pb_decode.h:70-78 | In descriptions whose arrays all have counts, decoding two messages in turn is decoding their concatenation. |
| `Merging.LoopSeen` | QUIZ/Pods/nanopb/pb_decode.c:1015-1020 | The required fields met so far do not influence the loop; they only add up. |
| `Merging.PackedAndUnpackedAgree` | QUIZ/Pods/nanopb/pb_decode.c:424-464 | Any mix of packed chunks, empty ones included, and single entries decodes to the entries in order exactly as long as they fit, in arrays with a count or without, and fails otherwise. |
| `Interleaving.LoopInterleaved` | QUIZ/Pods/nanopb/pb_decode.c:946-1024 | From any state of the field loop, the entries of a counted array, in chunks of any kind that stand anywhere between other fields, are appended in the order of the stream exactly as long as they fit; all other fields, and the loop's success, are as if the array were not in the stream. |
| `Interleaving.ArrayAnywhere` | QUIZ/Pods/nanopb/pb_decode.c:928-1076 | The same for whole messages: decoding with the array spread among the other fields is decoding the other fields and storing its entries in order, and it fails exactly when the others fail or the entries do not fit. |
| `Interleaving.EntriesMove` | QUIZ/Pods/nanopb/pb_decode.c:424-464 | Streams with the same other fields and the same entries in the same order decode alike, wherever the entries stand and however they are cut into packed chunks and single entries. |
| `Interleaving.FieldFramed` | QUIZ/Pods/nanopb/pb_decode.c:406-483 | A whole payload decodes to the same slot, or is refused, whatever follows it and whatever it is decoded into. |
| `Interleaving.RoundElsewhere` | QUIZ/Pods/nanopb/pb_decode.c:946-1024 | A round on a field of another slot, known or unknown, neither reads nor changes the array's slot, and goes on exactly behind the field. |
| `Merging.ZeroTagStops` | QUIZ/Pods/nanopb/pb_decode.c:953-958 | After a zero tag nothing more is read: appended bytes stay unread and change nothing. |
| `Merging.LoopAppend` | QUIZ/Pods/nanopb/pb_decode.c:946-1024 | The field loop on appended input goes on where it was, or never looks at the new bytes. |
| `Merging.LoopConsumesAll` | QUIZ/Pods/nanopb/pb_decode.c:946-1024 | The field loop succeeds early only at a zero tag; otherwise every byte has been consumed. |
| `Merging.DecValueLocal` | QUIZ/Pods/nanopb/pb_decode.c:1519-1541 | Decoding one item never depends on the bytes after those it consumes. |
| `Merging.DecFieldLocal` | QUIZ/Pods/nanopb/pb_decode.c:406-483 | Decoding one field never depends on the bytes after those it consumes. |
| `Merging.UnknownFieldTransparent` | QUIZ/Pods/nanopb/pb_decode.c:960-989 | Inserting a complete field with an unknown non-zero tag between two fields leaves the outcome of decoding unchanged, success or failure. |
| `InitialContents.DefaultsInitial` | QUIZ/Pods/nanopb/pb_decode.c:839-922 | Setting a message to its defaults stores, at any depth, the default that the description names or the zero of the type, with no has-flag set, no entries and no member of a union selected. |
| `InitialContents.NamedDefaultStored` | QUIZ/Pods/nanopb/pb_decode.c:881-885 | The default named for a required or optional member is the value it then holds. |
| `InitialContents.AbsentIsInitial` | QUIZ/Pods/nanopb/pb_decode.c:1078-1090 | A field that an encoding does not write comes back with those initial contents: an optional one without its has-flag and with its default. |
| `InitialContents.EntryStartsInitial` | QUIZ/Pods/nanopb/pb_decode.c:1519-1541 | So do the members of a submessage in an array, whatever the entries before it hold. |
| `FieldsMet.AcceptedExactly` | QUIZ/Pods/nanopb/pb_decode.c:928-1076 | Exactly which streams a message accepts: the field loop gets through, each of the first 64 required fields has occurred, and each array without a count that has occurred has all its entries. |
| `FieldsMet.RequiredMet` | QUIZ/Pods/nanopb/pb_decode.c:1015-1020 | The loop has met exactly the required fields whose tags it has read. |
| `FieldsMet.FixedMet` | QUIZ/Pods/nanopb/pb_decode.c:990-1031 | Each array without a count that was met is the last one, or is full. |
| `FieldsMet.UnmetKept` | QUIZ/Pods/nanopb/pb_decode.c:946-1024 | Whatever a stream holds, a member that none of its tags belongs to keeps what it held. |
| `FieldsMet.UnmetInitial` | QUIZ/Pods/nanopb/pb_decode.c:1078-1090 | Decoded from scratch, such a member has its initial contents. |
| `DecodedOver.SubmessageMergedInto` | QUIZ/Pods/nanopb/pb_decode.c:468-477 | A submessage that arrives again keeps what the new one does not write, also in a union that held that member; in a union that held another, such members have their initial contents. |
| `DecodedOver.UnwrittenKept` | QUIZ/Pods/nanopb/pb_decode.c:928-1076 | Decoding an encoding over a message leaves every member alone that it does not write. |
| `DecodedOver.ScalarReplaced` | QUIZ/Pods/nanopb/pb_decode.c:406-483 | A scalar that arrives replaces what was there, sets the has-flag, and selects its member of a union. |
| `DecodedOver.EntriesAppended` | QUIZ/Pods/nanopb/pb_decode.c:424-464 | Entries that arrive come behind those that are there; an array without a count starts over. |
| `WireFormat.ItemBytes` | QUIZ/Pods/nanopb/pb_encode.c:769-912 | The bytes of an item of every type: one byte 0 or 1, the number that its varint stands for, four or eight bytes with the least significant first, or a length and what it announces. |
| `WireFormat.TagNumber` | QUIZ/Pods/nanopb/pb_encode.c:669-707 | The number in front of a field is eight times its tag plus 0, 1, 2 or 5, as its type has it. |
| `WireFormat.WrittenItemSkipped` | QUIZ/Pods/nanopb/pb_encode.c:675-707 | What stands behind the tag is what the wire type in the tag says: skipping by it consumes exactly the item, for every type. |
| `WireFormat.FieldSkipped` | QUIZ/Pods/nanopb/pb_decode.c:960-989 | A receiver that does not know a field skips exactly what the encoder wrote for it, packed arrays and arrays of submessages included. |
| `WireFormat.MessageSkipped` | QUIZ/Pods/nanopb/pb_decode.c:946-989 | One that knows none of its fields skips a whole encoding and goes on behind it. |
| `WireFormat.TagZero` | QUIZ/Pods/nanopb/pb_decode.c:960-989 | A tag of number 0 is skipped by its wire type, but in a description without fields it stands in front of a varint whatever its wire type says. |
| `WireFormat.SkippedByNumber` | QUIZ/Pods/nanopb/pb_decode.c:321-331 | Wire type 1 stands for eight bytes and 5 for four; every number but 0, 1, 2 and 5 is refused. |
| `WireFormat.VarintSkipped` | QUIZ/Pods/nanopb/pb_decode.c:278-287 | Wire type 0 stands for a varint. |
| `WireFormat.StringSkipped` | QUIZ/Pods/nanopb/pb_decode.c:321-331 | Wire type 2 stands for a length and as many bytes. |
| `WireFormat.ArrayForm` | QUIZ/Pods/nanopb/pb_encode.c:147-236 | Arrays of booleans and integers are one length-prefixed field of wire type 2, any other has one field for each entry, an empty one is not written, and one that exceeds its size is refused. |
| `WireFormat.ItemsJoin` | QUIZ/Pods/nanopb/pb_encode.c:197-233 | In either form the items stand in order. |
| `WireFormat.WrittenExactly` | QUIZ/Pods/nanopb/pb_encode.c:341-426 | A field is written exactly when it is there: required, with its has-flag, with entries, selected in its union, or, in proto3, not zero. |
| `WireFormat.SubmessageWritten` | QUIZ/Pods/nanopb/pb_encode.c:240-337 | A proto3 submessage that is left out has nothing to write, and without unions one with nothing to write is left out. |
| `WireFormat.FieldsInOrder` | QUIZ/Pods/nanopb/pb_encode.c:528-550 | A message is its fields in the order of the description, and nothing else. |
| `WireFormat.EncodesExactly` | QUIZ/Pods/nanopb/pb_encode.c:147-236 | Encoding succeeds exactly when, at every depth, no array exceeds its size, bytes leave four for their length, and integers have a width of 1, 2, 4 or 8. |
| `WireFormat.LittleEndianBytes` | QUIZ/Pods/nanopb/pb_encode.c:641-666 | Fixed-width integers go out least significant byte first. |
| `WireFormat.LittleEndianRead` | QUIZ/Pods/nanopb/pb_decode.c:1293-1305 | And come in that way, four bytes long. |
| `WireFormat.EightBytesRead` | QUIZ/Pods/nanopb/pb_decode.c:1308-1325 | And eight bytes long. |
| `WireFormat.BoolRead` | QUIZ/Pods/nanopb/pb_decode.c:1328-1337 | Every number but zero is read as true. |
| `WireFormat.SignedRead` | QUIZ/Pods/nanopb/pb_decode.c:1339-1374 | A signed field reads any varint as the one number of its width equal to it modulo 2^64, or modulo 2^32 in fields of at most four bytes. |
| `WireFormat.LengthsExactly` | QUIZ/Pods/nanopb/pb_decode.c:1441-1564 | Bytes are accepted with room for four more, strings with room for one more, and fixed-length bytes at exactly their length or empty, which stands for zeros. |
| `Wire.DecVarintMeaning` | QUIZ/Pods/nanopb/pb_decode.c:255-275 | The 64-bit decoder accepts a varint exactly when it has at most ten bytes, yields its base-128 value modulo 2^64, and consumes exactly the varint. |
| `Wire.DecVarintAccepts` | QUIZ/Pods/nanopb/pb_decode.c:255-275 | Whatever it accepts is a varint ending where it stopped. |
| `Wire.EncVarintLength64` | QUIZ/Pods/nanopb/pb_encode.c:608-628 | The encoding of a 64-bit value takes one to ten bytes. |
| `Wire.VarintRoundTrip` | QUIZ/Pods/nanopb/pb_encode.c:608-628 | Every 64-bit value is read back, with the bytes behind it untouched. |
| `Wire.Varint32Agrees` | QUIZ/Pods/nanopb/pb_decode.c:187-247 | For varints of at most ten bytes, whatever the 32-bit decoder accepts is the 64-bit result modulo 2^32, with the same bytes left. |
| `Wire.Varint32RoundTrip` | QUIZ/Pods/nanopb/pb_decode.c:187-247 | The 32-bit decoder accepts the encoding of every value below 2^32. |
| `Wire.Varint32SignRoundTrip` | QUIZ/Pods/nanopb/pb_decode.c:206-234 | It accepts the ten-byte encoding of every sign-extended negative 32-bit value. |
| `Wire.Varint32Exactly` | QUIZ/Pods/nanopb/pb_decode.c:187-247 | Of the varints of at most ten bytes the 32-bit decoder accepts exactly those whose fifth byte, when it is the last, has four bits, and whose later bytes are empty or extend the sign of a negative value. |
| `Scalars.NarrowSignedMeaning` | QUIZ/Pods/nanopb/pb_decode.c:1339-1374 | For each width, exactly which varints a signed field accepts, and as what. |
| `Scalars.NarrowSignedExactly` | QUIZ/Pods/nanopb/pb_decode.c:1339-1374 | What a signed field makes of a varint is the one number of its width equal to it modulo 2^64 in eight bytes and modulo 2^32 otherwise, and it is refused when there is none. |
| `Scalars.WidthRange` | QUIZ/Pods/nanopb/pb_decode.c:1355-1370 | The range of each width in powers of two. |
| `Scalars.NarrowUnsignedMeaning` | QUIZ/Pods/nanopb/pb_decode.c:1376-1398 | An unsigned field accepts exactly the values of its width, unchanged. |
| `Scalars.NarrowZigZagMeaning` | QUIZ/Pods/nanopb/pb_decode.c:1400-1422 | A zigzag field accepts exactly the values whose decoding fits its width. |
| `Scalars.SignedRoundTrip` | QUIZ/Pods/nanopb/pb_encode.c:776-797 | Signed values of width 1, 2, 4 and 8 survive the 64-bit varint. |
| `Scalars.ZigZagRoundTrip` | QUIZ/Pods/nanopb/pb_encode.c:630-639 | Zigzag decoding inverts zigzag encoding on all signed 64-bit values. |
| `Scalars.UnZigZagRoundTrip` | QUIZ/Pods/nanopb/pb_decode.c:1279-1291 | And the other way round on all unsigned 64-bit values. |
| `Scalars.ZigZagFieldRoundTrip` | QUIZ/Pods/nanopb/pb_decode.c:1400-1422 | Zigzag fields of width 1, 2, 4 and 8 round-trip. |
| `Scalars.FixedRoundTrip` | QUIZ/Pods/nanopb/pb_decode.c:1293-1325 | Fixed-width integers of four and eight bytes round-trip. |
| `Scalars.TagRoundTrip` | QUIZ/Pods/nanopb/pb_decode.c:298-319 | Every tag below 2^29 with any wire type is read back. |
| `Scalars.SkipVarintMeaning` | QUIZ/Pods/nanopb/pb_decode.c:278-287 | Skipping a varint consumes exactly the varint, however long. |
| `Scalars.SkipFieldLocal` | QUIZ/Pods/nanopb/pb_decode.c:321-331 | Skipping a field never depends on the bytes behind it. |
| `FieldCursor.FieldIter.constructor` | QUIZ/Pods/nanopb/pb_common.c:8-18 | A new cursor stands on the first field with that field's addresses. |
| `FieldCursor.FieldIter.Rewind` | QUIZ/Pods/nanopb/pb_common.c:36 | Wrapping brings the cursor to the state of a new one. |
| `FieldCursor.FieldIter.Next` | QUIZ/Pods/nanopb/pb_common.c:20-76 | One step keeps the invariant that index and both addresses are functions of the position alone, and reports exactly the wrap. |
| `FieldCursor.FieldIter.Find` | QUIZ/Pods/nanopb/pb_common.c:78-95 | The wrapping search succeeds exactly when a field has the tag, stops at the first one going round, and otherwise returns to where it was, with the invariant kept. |
| `FieldCursor.FindIsLookup` | QUIZ/Pods/nanopb/pb_common.c:78-95 | With distinct tags the field found is the one a fresh lookup finds, wherever the search began. |
| `FieldCursor.SlotsAreAddresses` | QUIZ/Pods/nanopb/pb_common.c:41-73 | Addresses grow along the list, and two fields have the same address exactly when they share a slot of the modelled structure. |
| `FieldCursor.MembersDisjoint` | QUIZ/Pods/nanopb/pb_common.c:41-73 | A member outside unions ends before the next one starts, arrays counted with all their entries; its has-flag or count lies at its stated distance, and a union has one which-tag. |
| `OutputStream.OStream.FromBuffer` | QUIZ/Pods/nanopb/pb_encode.c:86-101 | A buffer stream starts empty at its place in the buffer. |
| `OutputStream.OStream.BufWrite` | QUIZ/Pods/nanopb/pb_encode.c:74-84 | Copies the data to the position and touches no other byte. |
| `OutputStream.OStream.Write` | QUIZ/Pods/nanopb/pb_encode.c:103-124 | Writes all or nothing: it fails exactly when the data exceed the limit, and a sizing stream only counts. |
| `OutputStream.EmittedThen` | QUIZ/Pods/nanopb/pb_encode.c:103-124 | Two emissions in a row are the emission of their concatenation, on either kind of stream. |
| `InputStream.IStream.constructor` | QUIZ/Pods/nanopb/pb_decode.c:159-181 | A stream over part of a buffer holds exactly those bytes. |
| `InputStream.IStream.Read` | QUIZ/Pods/nanopb/pb_decode.c:102-137 | Succeeds exactly when enough bytes are left, copies them, and moves position and count together. |
| `InputStream.IStream.Skip` | QUIZ/Pods/nanopb/pb_decode.c:102-137 | The same without a destination. |
| `InputStream.IStream.ReadByte` | QUIZ/Pods/nanopb/pb_decode.c:141-157 | The same for one byte. |
| `PbEncode.FillVarint` | QUIZ/Pods/nanopb/pb_encode.c:620-627 | The loop fills the buffer with exactly the varint of the value, in at most ten bytes. |
| `PbEncode.EncodeVarint` | QUIZ/Pods/nanopb/pb_encode.c:608-628 | Emits exactly the varint. |
| `PbEncode.EncodeSvarint` | QUIZ/Pods/nanopb/pb_encode.c:630-639 | Emits the varint of the zigzag value. |
| `PbEncode.EncodeFixed32` | QUIZ/Pods/nanopb/pb_encode.c:641-650 | Emits four bytes, least significant first. |
| `PbEncode.EncodeFixed64` | QUIZ/Pods/nanopb/pb_encode.c:653-666 | Emits eight bytes, least significant first. |
| `PbEncode.EncodeTag` | QUIZ/Pods/nanopb/pb_encode.c:669-673 | Emits the tag with its wire type. |
| `PbEncode.EncodeTagForField` | QUIZ/Pods/nanopb/pb_encode.c:675-707 | Emits the tag with the wire type of the field's type. |
| `PbEncode.EncodeString` | QUIZ/Pods/nanopb/pb_encode.c:709-715 | Emits the length and the bytes. |
| `PbEncode.EncBool` | QUIZ/Pods/nanopb/pb_encode.c:769-774 | Emits 0 or 1. |
| `PbEncode.EncInteger` | QUIZ/Pods/nanopb/pb_encode.c:776-815 | Emits the value as a 64-bit varint, or fails on an invalid width. |
| `PbEncode.EncSvarint` | QUIZ/Pods/nanopb/pb_encode.c:817-833 | Emits the zigzag varint, or fails on an invalid width. |
| `PbEncode.EncBytes` | QUIZ/Pods/nanopb/pb_encode.c:852-873 | Emits length and bytes, or fails when they exceed the member. |
| `PbEncode.EncStringField` | QUIZ/Pods/nanopb/pb_encode.c:875-899 | Emits the characters up to the terminator or the size of the member. |
| `PbEncode.EncodeElement` | QUIZ/Pods/nanopb/pb_encode.c:901-912 | Emits one item of any type. |
| `PbEncode.PackedSize` | QUIZ/Pods/nanopb/pb_encode.c:169-189 | The size of a packed payload, found arithmetically or by a sizing stream, is the length of what is then written. |
| `PbEncode.WriteItems` | QUIZ/Pods/nanopb/pb_encode.c:197-205 | Emits the packed entries in order. |
| `PbEncode.WriteTagged` | QUIZ/Pods/nanopb/pb_encode.c:208-233 | Emits the entries each with its tag. |
| `PbEncode.EncodePackedBody` | QUIZ/Pods/nanopb/pb_encode.c:169-205 | Emits length and entries; the length announced is the number of bytes that follow. |
| `PbEncode.EncodeArray` | QUIZ/Pods/nanopb/pb_encode.c:147-236 | Emits an array in packed or tagged form, or fails when the count exceeds the array. |
| `PbEncode.EncodeBasicField` | QUIZ/Pods/nanopb/pb_encode.c:341-426 | Emits a field exactly when it is present. |
| `PbEncode.EncodeSubmessage` | QUIZ/Pods/nanopb/pb_encode.c:717-765 | Emits length and contents; the two passes agree, so the size-changed branch is unreachable. |
| `PbEncode.WriteSubmessage` | QUIZ/Pods/nanopb/pb_encode.c:740-765 | The second pass, on a substream of the announced size, writes exactly that many bytes and stops the parent at the same place. |
| `PbEncode.SizeOf` | QUIZ/Pods/nanopb/pb_encode.c:567-576 | The sizing pass succeeds exactly when encoding does and counts exactly its bytes. |
| `PbEncode.Encode` | QUIZ/Pods/nanopb/pb_encode.c:528-550 | Emits exactly the encoding of the message, on a writing and on a sizing stream. |
| `PbEncode.EncodeNullTerminated` | QUIZ/Pods/nanopb/pb_encode.c:557-565 | Emits the message and a zero byte. |
| `PbDecode.DecodeVarint32Eof` | QUIZ/Pods/nanopb/pb_decode.c:187-247 | Accepts exactly what the 32-bit specification accepts, reports end of stream exactly on an empty stream, and keeps the end of the stream fixed. |
| `PbDecode.DecodeVarint` | QUIZ/Pods/nanopb/pb_decode.c:255-275 | The same for the 64-bit specification. |
| `PbDecode.DecodeSvarint` | QUIZ/Pods/nanopb/pb_decode.c:1279-1291 | Yields the zigzag-decoded value. |
| `PbDecode.SkipVarintBytes` | QUIZ/Pods/nanopb/pb_decode.c:278-287 | Skips exactly the varint. |
| `PbDecode.SkipUnknown` | QUIZ/Pods/nanopb/pb_decode.c:321-331 | Skips exactly one field of the given wire type, or fails on an invalid one. |
| `PbDecode.DecodeTag` | QUIZ/Pods/nanopb/pb_decode.c:298-319 | Tells a tag, the zero tag, the end of the stream and an error apart. |
| `PbDecode.MakeSubstream` | QUIZ/Pods/nanopb/pb_decode.c:372-385 | The substream holds exactly the announced bytes and the parent is charged for them. |
| `PbDecode.CloseSubstream` | QUIZ/Pods/nanopb/pb_decode.c:387-400 | Leaves the parent exactly past the announced bytes, whatever the substream consumed. |
| `PbDecode.DecVarintField` | QUIZ/Pods/nanopb/pb_decode.c:1339-1374 | Reads a signed integer of the field's width or fails. |
| `PbDecode.DecUvarint` | QUIZ/Pods/nanopb/pb_decode.c:1376-1398 | Reads an unsigned integer of the field's width or fails. |
| `PbDecode.DecSvarint` | QUIZ/Pods/nanopb/pb_decode.c:1400-1422 | Reads a zigzag integer of the field's width or fails. |
| `PbDecode.DecodeFixed32` | QUIZ/Pods/nanopb/pb_decode.c:1293-1305 | Reads four bytes, least significant first. |
| `PbDecode.DecodeFixed64` | QUIZ/Pods/nanopb/pb_decode.c:1308-1325 | Reads eight bytes, least significant first. |
| `PbDecode.CheckLength` | QUIZ/Pods/nanopb/pb_decode.c:1441-1517 | Accepts exactly the lengths that fit the destination, in 32-bit arithmetic. |
| `PbDecode.DecLengthPrefixed` | QUIZ/Pods/nanopb/pb_decode.c:1441-1564 | Reads a length-prefixed item that fits its destination or fails. |
| `PbDecode.DecodeScalar` | QUIZ/Pods/nanopb/pb_decode.c:1328-1564 | Reads an item of any type but submessage. |
| `PbDecode.SetFieldToDefault` | QUIZ/Pods/nanopb/pb_decode.c:839-909 | Yields the default of a field, submessages included. |
| `PbDecode.SetToDefaults` | QUIZ/Pods/nanopb/pb_decode.c:911-922 | Yields the defaults of all fields. |
| `PbDecode.DecSubmessage` | QUIZ/Pods/nanopb/pb_decode.c:1519-1541 | Decodes a submessage through a substream, merged into what was there or from the defaults in an array, and terminates for descriptions of any depth. |
| `PbDecode.DecodePacked` | QUIZ/Pods/nanopb/pb_decode.c:435-447 | Reads entries until the substream is empty; success with nothing left is exactly the specification's success. |
| `PbDecode.DecodePackedField` | QUIZ/Pods/nanopb/pb_decode.c:427-454 | Reads a packed array and leaves the parent past it. |
| `PbDecode.DecodeRepeated` | QUIZ/Pods/nanopb/pb_decode.c:424-464 | Appends packed entries or one entry, or fails on overflow. |
| `PbDecode.DecodeStaticField` | QUIZ/Pods/nanopb/pb_decode.c:406-483 | Decodes one field of any kind into its slot, unions included. |
| `PbDecode.MarkRequired` | QUIZ/Pods/nanopb/pb_decode.c:1015-1020 | Sets the bit of a required field and no other; the words keep holding exactly the fields met. |
| `PbDecode.CheckFixedCount` | QUIZ/Pods/nanopb/pb_decode.c:1026-1031 | Says exactly whether the array without a count met last is full. |
| `PbDecode.BeginFixedCount` | QUIZ/Pods/nanopb/pb_decode.c:990-1013 | Begins another array without a count only when the last is full, and goes on in the same one. |
| `PbDecode.DecodeFound` | QUIZ/Pods/nanopb/pb_decode.c:990-1023 | Decodes the field under the cursor exactly as specified, with its bit set and the array without a count tracked. |
| `PbDecode.CountRequired` | QUIZ/Pods/nanopb/pb_decode.c:1038-1048 | Running the cursor to the end yields the number of required fields. |
| `PbDecode.CheckRequired` | QUIZ/Pods/nanopb/pb_decode.c:1033-1072 | The masked word comparison succeeds exactly when every required field with an index below 64 was met. |
| `PbDecode.DecodeRound` | QUIZ/Pods/nanopb/pb_decode.c:946-1024 | One round of the field loop does exactly what the specification's round does. |
| `PbDecode.DecodeNoinit` | QUIZ/Pods/nanopb/pb_decode.c:928-1076 | Decodes into the destination exactly as specified, with the bytes left strictly falling; on success the stream ends where it did. |
| `PbDecode.Decode` | QUIZ/Pods/nanopb/pb_decode.c:1078-1090 | Decodes a message from its defaults. |
| `PbDecode.DecodeDelimited` | QUIZ/Pods/nanopb/pb_decode.c:1107-1120 | Leaves the stream exactly past the announced length on success. |
| `RequiredBitmap.SetBit` | QUIZ/Pods/nanopb/pb_decode.c:1018-1019 | Or-ing a shifted one into a word sets that bit and leaves the others. |
| `RequiredBitmap.OnesExactly` | QUIZ/Pods/nanopb/pb_decode.c:1062-1070 | A word equals r low ones exactly when its set bits are those below r. |
| `RequiredBitmap.MarkSeen` | QUIZ/Pods/nanopb/pb_decode.c:1015-1020 | Marking required field i keeps the words equal to the set of fields met. |
| `RequiredBitmap.MarkBeyond` | QUIZ/Pods/nanopb/pb_decode.c:1015-1016 | A required field with index 64 or more changes no word. |
| `RequiredBitmap.NoBitBeyond` | QUIZ/Pods/nanopb/pb_decode.c:1062-1070 | No bit at or past the number of required fields is ever set. |
| `RequiredBitmap.AllBitsMeanAllSeen` | QUIZ/Pods/nanopb/pb_decode.c:1050-1072 | All bits below the clamped count are set exactly when every tracked required field was met. |
| `RequiredBitmap.WordCheck` | QUIZ/Pods/nanopb/pb_decode.c:1055-1070 | Comparing a word with r ones checks exactly its r required fields. |
| `RequiredBitmap.RequiredIndexExists` | QUIZ/Pods/nanopb/pb_decode.c:1041-1048 | The indexes of the required fields are exactly the numbers below their count. |
| `AuthenticationRuns.CompletionsCalledOnce` | QUIZ/Pods/Alamofire/Source/AuthenticationInterceptor.swift:250-402 | In every run of any number of threads, blocks and answered refreshes, each completion is called at most once and otherwise still held; at rest each has been called once; a refresh is outstanding exactly while refreshing, and completions wait only then. |
| `AuthenticationRuns.StepKeeps` | QUIZ/Pods/Alamofire/Source/AuthenticationInterceptor.swift:250-402 | Each lock section, block step and answer keeps that accounting. |
| `AuthenticationRuns.RefreshRateBounded` | QUIZ/Pods/Alamofire/Source/AuthenticationInterceptor.swift:330-368 | In every run with a clock that does not go back, any closed window of the configured length holds at most the configured number of refresh timestamps. |
| `AuthenticationRuns.RefreshKeepsRate` | QUIZ/Pods/Alamofire/Source/AuthenticationInterceptor.swift:330-368 | One refresh keeps the bound although the clock is read apart for the check and the record. |
| `AuthenticationAnswers.AnswersFit` | QUIZ/Pods/Alamofire/Source/AuthenticationInterceptor.swift:276-402 | In every run a completion of `adapt` is told a credential that was held or an error, a completion of `retry` whether to retry, never the other way round, and a refresh error is told only if a refresh failed with it. |
| `AuthenticationAnswers.StepFits` | QUIZ/Pods/Alamofire/Source/AuthenticationInterceptor.swift:250-402 | Each step keeps that. |
| `AuthenticationAnswers.RefreshFits` | QUIZ/Pods/Alamofire/Source/AuthenticationInterceptor.swift:330-353 | Starting or refusing a refresh moves operations and retries only to where they are answered as such. |
| `AuthenticationDecisions.AnswersAreDecisions` | QUIZ/Pods/Alamofire/Source/AuthenticationInterceptor.swift:250-402 | In every run the answers given are exactly those that the events decided, apart from those still owed: a retry waiting when a refresh succeeds is told to retry, one waiting when it fails is told its error, everything waiting when there were too many refreshes is told that, `retry` answers before its lock as its facts call for, and `adapt` gives the credential it finds under the lock. |
| `AuthenticationDecisions.StepSettles` | QUIZ/Pods/Alamofire/Source/AuthenticationInterceptor.swift:250-402 | Each lock section, block step and answer adds to the answers given or owed exactly what it decides. |
| `AuthenticationDecisions.ExcessiveExactly` | QUIZ/Pods/Alamofire/Source/AuthenticationInterceptor.swift:355-368 | A refresh is refused exactly when the closed window that ends now holds at least as many as it allows. |
| `AuthenticationOrder.FirstComeFirstServed` | QUIZ/Pods/Alamofire/Source/AuthenticationInterceptor.swift:319-402 | In every run the retries that blocks call, then those in blocks, then those waiting for the refresh, are those that took the lock, in that order; and so for the operations that had to wait. |
| `AuthenticationRefreshes.RefreshIsOfCredentialRead` | QUIZ/Pods/Alamofire/Source/AuthenticationInterceptor.swift:250-353 | In every run `adapt`, called from outside or from a block, starts a refresh exactly when none is outstanding, the credential held requires one and there were not too many, and it is of that credential; one started by `retry` is of the credential read before the lock was taken, which is the one held if and only if that has the value read, as it has when it was not set in between. |
| `AuthenticationRefreshes.DispatchesAreOfCredentialsRead` | QUIZ/Pods/Alamofire/Source/AuthenticationInterceptor.swift:330-353 | In every run the recorded timestamps are the times of the refreshes dispatched, in order, and each refresh is of a value that the credential had when it was read, at or before the dispatch. |
| `AuthenticationRefreshes.ReplacedCredentialRefreshed` | QUIZ/Pods/Alamofire/Source/AuthenticationInterceptor.swift:307-325 | For any two different credentials a run in which the first has already been replaced by the second when a refresh of the first is dispatched. |
| `AuthenticationRefreshes.StepStarts` | QUIZ/Pods/Alamofire/Source/AuthenticationInterceptor.swift:330-353 | What each step starts, and of which credential. |
| `Authentication.AuthenticationInterceptor.constructor` | QUIZ/Pods/Alamofire/Source/AuthenticationInterceptor.swift:240-246 | A new interceptor refreshes nothing and holds nothing. |
| `Authentication.AuthenticationInterceptor.CheckExcessive` | QUIZ/Pods/Alamofire/Source/AuthenticationInterceptor.swift:355-368 | Counts exactly the timestamps not older than the window and compares with the maximum. |
| `Authentication.AuthenticationInterceptor.OnRefreshSuccess` | QUIZ/Pods/Alamofire/Source/AuthenticationInterceptor.swift:370-386 | Empties both queues into one dispatched block, stores the credential and ends the refresh. |
| `Authentication.AuthenticationInterceptor.OnRefreshFailure` | QUIZ/Pods/Alamofire/Source/AuthenticationInterceptor.swift:388-402 | Empties both queues into one dispatched block with the error and ends the refresh. |
| `Authentication.AuthenticationInterceptor.StartRefresh` | QUIZ/Pods/Alamofire/Source/AuthenticationInterceptor.swift:330-353 | Fails all waiting completions when excessive, and otherwise records the time and dispatches one call. |
| `Authentication.AuthenticationInterceptor.BeginAdapt` | QUIZ/Pods/Alamofire/Source/AuthenticationInterceptor.swift:251-274 | The lock section of `adapt`: defer, refuse, refresh or adapt. |
| `Authentication.AuthenticationInterceptor.EnqueueRetry` | QUIZ/Pods/Alamofire/Source/AuthenticationInterceptor.swift:319-325 | The lock section of `retry`: always enqueue, refresh only when none is outstanding. |
| `RequestRetries.HandlersCalledOnceInOrder` | QUIZ/Pods/Alamofire/Source/Request.swift:479-625 | In every run with any number of retries, the completions called are a prefix of one for each handler registered before the pipeline was found empty, in order and with the response of the pass that the retriers have asked for; at rest they are all of them and the request is finished. |
| `RequestRetries.RetriesFollowAnswers` | QUIZ/Pods/Alamofire/Source/Request.swift:479-508 | In every run the retries counted or dispatched are as many as the answers to retry, of the task's retrier and the serializers'; the request is loaded once and once more for each; a retrier is asked about exactly the loads and serializers that fail; and the request goes on exactly after a success or a refusal. |
| `RequestRuns.HandlerAfterFinish` | QUIZ/Pods/Alamofire/Source/Request.swift:533-549 | A handler registered on a finished request is called too, with the response of the last pass, and the request finishes again. |
| `RequestPipeline.EffectsInOrder` | QUIZ/Pods/Alamofire/Source/Request.swift:662-734 | What each transition dispatches and does, in order: the request is told first and its task's handlers last, and a running task is resumed before it is cancelled. |
| `RequestPipeline.MovesExactly` | QUIZ/Pods/Alamofire/Source/Request.swift:50-63 | A request moves exactly when the transition is allowed, and changes nothing else. |
| `RequestRuns.StepKeeps` | QUIZ/Pods/Alamofire/Source/ResponseSerialization.swift:214-281 | Each step of loading, retrying, serializing, draining and calling keeps that. |
| `RequestRuns.RegisterKeeps` | QUIZ/Pods/Alamofire/Source/Request.swift:533-550 | Registering a handler at any moment before the completions are taken keeps it. |
| `RequestRuns.LateHandlerNeverCalled` | QUIZ/Pods/Alamofire/Source/Request.swift:571-596 | In every run, a handler registered between the two lock sections of `processNextResponseSerializer` is never called, whatever follows, unless it is registered again. |
| `RequestRuns.HandlerLost` | QUIZ/Pods/Alamofire/Source/Request.swift:571-596 | Such a run: the handler is accepted, the request comes to rest without calling it, and no continuation calls it. |
| `RequestRuns.PipelineEnds` | QUIZ/Pods/Alamofire/Source/Request.swift:479-625 | With finitely many retries the request comes to rest within a number of steps computed from the handlers registered. |
| `RequestRuns.StepProgresses` | QUIZ/Pods/Alamofire/Source/Request.swift:571-625 | Each step that does not retry leaves strictly less to do. |
| `RequestPipeline.TransitionsAreOrdered` | QUIZ/Pods/Alamofire/Source/Request.swift:50-63 | Exactly which transitions are allowed: none out of cancelled or finished, none back to the start, none to the same state but the first. |
| `RequestPipeline.Request.constructor` | QUIZ/Pods/Alamofire/Source/Request.swift:85-126 | A new request has nothing registered and is in its initial state. |
| `RequestPipeline.Request.AppendResponseSerializer` | QUIZ/Pods/Alamofire/Source/Request.swift:533-550 | Appends one serializer, reopens a finished request, and asks for processing exactly after the completions were taken. |
| `RequestPipeline.Request.NextResponseSerializer` | QUIZ/Pods/Alamofire/Source/Request.swift:555-568 | Hands out the serializer whose completion is the next missing one. |
| `RequestPipeline.Request.TakeCompletions` | QUIZ/Pods/Alamofire/Source/Request.swift:574-592 | Takes all completions and empties the pipeline. |
| `RequestPipeline.Request.ProcessNextResponseSerializer` | QUIZ/Pods/Alamofire/Source/Request.swift:571-605 | Starts the next serializer, or drains when there is none. |
| `RequestPipeline.Request.ResponseSerializerDidComplete` | QUIZ/Pods/Alamofire/Source/Request.swift:612-615 | Adds one completion and processes on. |
| `RequestPipeline.Request.Finish` | QUIZ/Pods/Alamofire/Source/Request.swift:513-526 | Does nothing while finishing, and otherwise starts processing. |
| `RequestPipeline.Request.PrepareForRetry` | QUIZ/Pods/Alamofire/Source/Request.swift:479-487 | Counts the retry and drops the completions, but no serializer. |
| `RequestPipeline.Request.Transition` | QUIZ/Pods/Alamofire/Source/Request.swift:662-734 | Moves exactly when the transition is allowed, and then dispatches its blocks and drives the last task as stated: a task is resumed before it is cancelled, and without one cancelling finishes the request. |
| `StreamRuns.CompletionsFollowStreams` | QUIZ/Pods/Alamofire/Source/Request.swift:1316-1412 | In every run the counter is the number of executions received and not finished, a completion is let through only when all that was received has been handled, completions wait only while something executes, and at rest each completion handed over has been called as often as it was handed over. |
| `StreamRuns.AdvanceConserves` | QUIZ/Pods/Alamofire/Source/ResponseSerialization.swift:1165-1269 | Each step of an execution or a completion passes on what it held, but for what it handles or calls. |
| `StreamRuns.NothingWaits` | QUIZ/Pods/Alamofire/Source/ResponseSerialization.swift:1259-1269 | When a completion is released, nothing received is unhandled. |
| `StreamOrder.ParsedBeforeHandled` | QUIZ/Pods/Alamofire/Source/ResponseSerialization.swift:1165-1269 | In every run a chunk is parsed for exactly the streams that parse, and no later than it is handled. |
| `StreamOrder.CompletionsInOrder` | QUIZ/Pods/Alamofire/Source/Request.swift:1393-1412 | In every run completions are let through in the order in which they reached the gate, and the others wait in that order. |
| `StreamOrder.StreamsInOrder` | QUIZ/Pods/Alamofire/Source/Request.swift:1316-1330 | In every run a chunk is handed to the streams registered so far, in the order of registration. |
| `StreamOrder.DeliveredInOrder` | QUIZ/Pods/Alamofire/Source/Request.swift:1316-1330 | Handing it over starts one execution for each stream in that order, with the parsing first where the stream parses. |
| `StreamRequest.DataStreamRequest.constructor` | QUIZ/Pods/Alamofire/Source/Request.swift:1253-1264 | Starts with no stream, no execution and no waiting completion. |
| `StreamRequest.DataStreamRequest.AppendStream` | QUIZ/Pods/Alamofire/Source/ResponseSerialization.swift:1175 | Adds one stream closure. |
| `StreamRequest.DataStreamRequest.DidReceive` | QUIZ/Pods/Alamofire/Source/Request.swift:1316-1330 | Counts one execution for each stream registered at that moment, and calls exactly those. |
| `StreamRequest.DataStreamRequest.UpdateAndCompleteIfPossible` | QUIZ/Pods/Alamofire/Source/ResponseSerialization.swift:1259-1269 | Ends one execution and releases the waiting completions exactly when it was the last. |
| `StreamRequest.DataStreamRequest.CompleteOrEnqueue` | QUIZ/Pods/Alamofire/Source/Request.swift:1393-1412 | Releases a completion exactly when nothing executes, and queues it otherwise. |
| `TaskMap.CompletionsRunOnce` | QUIZ/Pods/Alamofire/Source/Session.swift:1230-1251 | In every run in which tasks are new and have each event at most once, no fatal error is reached, the map stays one-to-one with events for exactly its tasks, the completions waiting are those of tasks completed without metrics, and a completion has run once if both events came, in either order, and not before. |
| `TaskMap.EventKeeps` | QUIZ/Pods/Alamofire/Source/Session.swift:1230-1251 | Each event keeps that. |
| `TaskMap.CompletionFreesRequest` | QUIZ/Pods/Alamofire/Source/Session.swift:1203-1218 | When a task's completion runs its request is no longer mapped, so a retry can give it a new task. |
| `TaskMap.TasksKeepRequests` | QUIZ/Pods/Alamofire/Source/RequestTaskMap.swift:62-64 | In every run a task is mapped to the request that it was created for. |
| `TaskMap.AssociateConsistent` | QUIZ/Pods/Alamofire/Source/RequestTaskMap.swift:62-64 | Associating a pair keeps the map one-to-one if and only if neither side is mapped to something else. |
| `TaskMap.DisassociateConsistent` | QUIZ/Pods/Alamofire/Source/RequestTaskMap.swift:70-80 | Disassociating a task keeps the map one-to-one and frees its request. |
| `TaskMap.CountsAgree` | QUIZ/Pods/Alamofire/Source/RequestTaskMap.swift:90-113 | In a consistent map the three dictionaries have the same size, so the size preconditions hold. |
| `TaskMap.RequestTaskMap.constructor` | QUIZ/Pods/Alamofire/Source/RequestTaskMap.swift:39-45 | An empty map is consistent. |
| `TaskMap.RequestTaskMap.Set` | QUIZ/Pods/Alamofire/Source/RequestTaskMap.swift:62-64 | Stores the pair in both directions with fresh events. |
| `TaskMap.RequestTaskMap.RemoveRequest` | QUIZ/Pods/Alamofire/Source/RequestTaskMap.swift:49-59 | Removes a request with its task and events. |
| `TaskMap.RequestTaskMap.RemoveTask` | QUIZ/Pods/Alamofire/Source/RequestTaskMap.swift:70-80 | Removes a task with its request and events. |
| `TaskMap.RequestTaskMap.DisassociateAfterGatheringMetrics` | QUIZ/Pods/Alamofire/Source/RequestTaskMap.swift:115-125 | Records metrics, or removes a task already completed. |
| `TaskMap.RequestTaskMap.DisassociateAfterCompleting` | QUIZ/Pods/Alamofire/Source/RequestTaskMap.swift:127-147 | Records completion, or removes a task whose metrics came first. |
| `TaskMap.Session.constructor` | QUIZ/Pods/Alamofire/Source/Session.swift:1230-1251 | Starts with an empty map, nothing waiting and nothing run. |
| `TaskMap.Session.DidCreateTask` | QUIZ/Pods/Alamofire/Source/Session.swift:1103-1105 | Associates the request with its new task. |
| `TaskMap.Session.DidGatherMetricsForTask` | QUIZ/Pods/Alamofire/Source/Session.swift:1230-1239 | Runs and forgets the waiting completion exactly when the task is let go. |
| `TaskMap.Session.DidCompleteTask` | QUIZ/Pods/Alamofire/Source/Session.swift:1241-1251 | Runs the completion when the task is let go, and keeps it otherwise. |
| `MultipartFraming.FormRecovered` | QUIZ/Pods/Alamofire/Source/MultipartFormData.swift:64-77 | With a boundary free of CR, a form is read back as exactly its headers and bodies if and only if no part with its line break before it holds the delimiter, no header name holds a colon and space, and no name or value holds a line break. |
| `MultipartFraming.EncodingInjective` | QUIZ/Pods/Alamofire/Source/MultipartFormData.swift:322-338 | Clean forms with the same bytes are the same form. |
| `MultipartFraming.SplitFraming` | QUIZ/Pods/Alamofire/Source/MultipartFormData.swift:375-391 | Splitting at the delimiters gives back the payloads if and only if none holds a delimiter. |
| `MultipartFraming.ParsePayload` | QUIZ/Pods/Alamofire/Source/MultipartFormData.swift:394-400 | The header lines and the body of a part are read back if and only if its headers are clean. |
| `MultipartFraming.ParsedWritesBack` | QUIZ/Pods/Alamofire/Source/MultipartFormData.swift:394-400 | Whatever part is read from some bytes is written as the same bytes. |
| `MultipartFraming.FirstDelimiter` | QUIZ/Pods/Alamofire/Source/MultipartFormData.swift:64-77 | A delimiter whose first byte does not recur in it cannot overlap itself: the first occurrence is the delimiter's own unless one lies wholly before it. |
| `MultipartFraming.FramesAfterDelimiter` | QUIZ/Pods/Alamofire/Source/MultipartFormData.swift:375-391 | The boundaries written around the parts are one delimiter before each part and one before the closing dashes. |
| `MultipartFraming.DelimiterInBody` | QUIZ/Pods/Alamofire/Source/MultipartFormData.swift:375-391 | A body that holds a delimiter line has the bytes of a form with two parts. |
| `MultipartFraming.ColonInName` | QUIZ/Pods/Alamofire/Source/MultipartFormData.swift:394-400 | A header name with a colon and space has the line of a shorter name with a longer value. |
| `MultipartFraming.FormLiterally` | QUIZ/Pods/Alamofire/Source/MultipartFormData.swift:322-338 | A form byte by byte: dashes and boundary, header lines of name, colon, space and value, empty lines, bodies, and the final boundary, each with its line end. |
| `MultipartFraming.BoundaryBytes` | QUIZ/Pods/Alamofire/Source/MultipartFormData.swift:64-77 | The bytes of the three kinds of boundary. |
| `MultipartFraming.HeadersLiterally` | QUIZ/Pods/Alamofire/Source/MultipartFormData.swift:394-400 | The bytes of the header lines and of the empty line behind them. |
| `MultipartEncoding.EncodedOnce` | QUIZ/Pods/Alamofire/Source/MultipartFormData.swift:322-338 | Encoding gives one framing of the parts if and only if no part but the last carries the final flag beforehand. |
| `MultipartEncoding.EncodedAgain` | QUIZ/Pods/Alamofire/Source/MultipartFormData.swift:322-338 | A form encoded, extended and encoded again is never the framing of the parts it then has. |
| `MultipartEncoding.EncodeReadsBack` | QUIZ/Pods/Alamofire/Source/MultipartFormData.swift:322-338 | A form encoded once after its last append is read back if and only if its parts are clean. |
| `MultipartEncoding.EncodesWhenComplete` | QUIZ/Pods/Alamofire/Source/MultipartFormData.swift:402-431 | Encoding succeeds if and only if every stream delivers exactly the length it was given. |
| `MultipartEncoding.FileHoldsEncoding` | QUIZ/Pods/Alamofire/Source/MultipartFormData.swift:347-371 | For a form that encodes in memory, the file holds the same bytes if and only if every write asked for finds room, an error is reported if and only if one fails, and so bytes are lost without an error exactly when some write finds no space and none fails; which writes are asked for follows from the answers and the lengths of the pieces. |
| `MultipartEncoding.ChunksExactly` | QUIZ/Pods/Alamofire/Source/MultipartFormData.swift:435-509 | The same for any pieces written to any file. |
| `MultipartEncoding.BytesExactly` | QUIZ/Pods/Alamofire/Source/MultipartFormData.swift:493-509 | The same for the loop that writes one piece. |
| `MultipartEncoding.FileIgnoresLengths` | QUIZ/Pods/Alamofire/Source/MultipartFormData.swift:452-476 | Writing to a file fails only where a write fails, whatever the lengths given, while encoding in memory succeeds if and only if they are right. |
| `MultipartEncoding.NoSpaceGoesUnreported` | QUIZ/Pods/Alamofire/Source/MultipartFormData.swift:493-509 | An output stream that never has room leaves the file empty and no error is reported. |
| `MultipartEncoding.FullLengthIsComplete` | QUIZ/Pods/Alamofire/Source/MultipartFormData.swift:493-509 | What a file has got is never more than the form, and a file of the full length holds exactly the form. |
| `MultipartOutcomes.StreamExactly` | QUIZ/Pods/Alamofire/Source/MultipartFormData.swift:402-431 | A stream delivers what its reads give, in order, up to its end or an empty read; a read that fails is its error. |
| `MultipartOutcomes.FirstErrorReported` | QUIZ/Pods/Alamofire/Source/MultipartFormData.swift:402-431 | Encoding reports the first part that is not complete: the error of its stream, or the length expected and the length read. |
| `MultipartOutcomes.BytesTaken` | QUIZ/Pods/Alamofire/Source/MultipartFormData.swift:493-509 | Writing goes on until the buffer is taken or an answer takes nothing; the file gets exactly what the answers take, and the error is that of the last answer. |
| `MultipartOutcomes.LastWriteFails` | QUIZ/Pods/Alamofire/Source/MultipartFormData.swift:435-509 | A failed write ends the writing of a form with its own error. |
| `MultipartOutcomes.BrokenStreamReported` | QUIZ/Pods/Alamofire/Source/MultipartFormData.swift:452-476 | A stream that breaks ends it with the stream's error, behind what was written before, unless a write failed first. |
| `MultipartForm.OutputStream.WriteBuffer` | QUIZ/Pods/Alamofire/Source/MultipartFormData.swift:493-509 | The write loop, for every way the stream can answer. |
| `MultipartForm.BodyPart.EncodeBodyStream` | QUIZ/Pods/Alamofire/Source/MultipartFormData.swift:402-431 | Reads the stream to its end or first error, checks the length, and leaves the stream consumed. |
| `MultipartForm.BodyPart.Encode` | QUIZ/Pods/Alamofire/Source/MultipartFormData.swift:375-391 | The part's bytes under the boundaries its flags ask for. |
| `MultipartForm.BodyPart.WriteBodyStream` | QUIZ/Pods/Alamofire/Source/MultipartFormData.swift:452-476 | Passes each piece to the file until the stream ends or something fails. |
| `MultipartForm.BodyPart.Write` | QUIZ/Pods/Alamofire/Source/MultipartFormData.swift:435-440 | Writes boundary, headers, body and final boundary in turn. |
| `MultipartForm.MultipartFormData.Append` | QUIZ/Pods/Alamofire/Source/MultipartFormData.swift:307-310 | Adds one part with clear flags and changes no other. |
| `MultipartForm.MultipartFormData.MarkBoundaries` | QUIZ/Pods/Alamofire/Source/MultipartFormData.swift:328-330 | Flags the first and the last part and clears no flag. |
| `MultipartForm.MultipartFormData.Encode` | QUIZ/Pods/Alamofire/Source/MultipartFormData.swift:322-338 | The encoding of all parts in order or the first error; flags and streams are left as stated. |
| `MultipartForm.MultipartFormData.WriteEncodedData` | QUIZ/Pods/Alamofire/Source/MultipartFormData.swift:347-371 | The file gets the parts' pieces in order up to the first error; flags and streams are left as stated. |

## Left out

- Callbacks, extensions, custom stream callbacks and pointer fields of nanopb: user code, or memory management that the configuration's static fields do not use.
- What the memory of an array without a count holds before its entries arrive: setting defaults writes a zero count over its first bytes, and the model keeps only the entries stored since the array was begun.
- The error messages of both libraries, and the build variants for AVR and for compilers without 64-bit integers.
- Wrap-around of `size_t` in the encoder: messages are assumed to be shorter than 2^64 bytes, which together with sizes and counts that fit their C types is all that `PbEncode.MessageInMemory` asks of a message.
- PbDecode.DecodeNoinit: says nothing about the destination after a failed decode, which the C code leaves partly overwritten; the destination structure is a value handed in and out, one slot for each field or union.
- PbDecode.DecodeDelimited: covers the form that sets defaults first; the form without defaults differs in nothing else.
- Wire.Varint32Agrees: covers varints of at most ten bytes, as Wire.Varint32Exactly does; the 32-bit decoder has no length limit and its bit position wraps.
- AuthenticationRuns.CompletionsCalledOnce: lets an operation that a block adapts again be called later than the code would call it, which only adds interleavings; `requiresRefresh` and the answers of the authenticator are given by the events.
- RequestRetries.HandlersCalledOnceInOrder: is about requests that are not cancelled, whose session lives, and to which no handler is added once the completions have been taken.
- TaskMap.CompletionsRunOnce: is about the branch that gathers metrics, not the one for Linux or old watchOS.
- StreamRuns.CompletionsFollowStreams: leaves out the bound input stream and cancellation on parse errors, which touch neither counter nor queue.
- MultipartForm.MultipartFormData.Encode: asks that no stream object be appended twice; the checks on the file URL before `writeEncodedData` and the choice of MIME types are not modelled.
- MultipartForm.OutputStream.WriteBuffer: an answer of zero bytes without an error, on which the loop of the source would ask again for ever, is excluded by the type of the answers.
- Header names and values are byte sequences; their conversion to UTF-8 is not modelled.
- URLSession, dispatch queues, clocks and locks are abstract steps, a time that does not go back, and atomic sections.
- Server trust, redirects, caching, event monitors, progress and the adapters to Combine and Swift concurrency: forwarding, or calls into code that cannot be seen.
- HTTPHeaders, RetryPolicy and the response helpers: they would only add easy members.
