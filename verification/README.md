# Verified model of learnuv's message handling

This project models four parts of the repository in Dafny and proves what they promise.

- **Chat stream** (`Buffer.dfy`, `Framing.dfy`, `Codec.dfy`). The growable buffer is a class over an array with two
  indices; its contract says that it is a byte queue and how its storage changes. The codec is a class whose read
  method is one step of a run. Runs are lists of chunks; the theorems about them hold for every run: independence of
  the cuts, conservation, exact round trip, the sticky stop, and the exact memory bound. A new decoder keeps its 8192
  bytes while chunks have at most 4093; with chunks of up to r bytes, r larger, it reaches 4098 + 2r and no more.
- **Protobuf messages** (`Wire.dfy`, `Schema.dfy`, `Streams.dfy`, `Query.dfy`, `Answer.dfy`, `Empty.dfy`). `Wire` holds
  the primitives of the document "Protocol Buffers Encoding", including unknown groups up to a nesting of 100.
  `Schema` says what a message means: a value with optional fields, merging, and parsing as a fold over records; its
  theorems hold for all three message types at once. The generated classes have their fields, has-bits and loops, and
  are proved to do what `Schema` says. `Valid` of each class is the presence invariant: an absent field is at its
  default. Every method keeps it.
- **Envelope** (`Adler.dfy`, `Envelope.dfy`). The layout with its back-patched length, unique decodability, and what
  the Adler-32 trailer (sections 2.2 and 8.2 of RFC 1950) notices.
- **Log formatting** (`LogStream.dfy`). Digits by truncating division, reversal in place, and the bounded buffer.

`Bytes.dfy` holds machine integers and fixed-width encodings.

Writers and readers are proved to be inverse to each other, and what the bytes stand for is proved besides: network
order (`Bytes.BigEndianOrder`), frames (`Framing.TakenByNumbers`), varints and wire types (`Wire.ReadVarintValue`,
`Wire.NumberLayout` and the lemmas after it), messages (`Schema.WireLayout`), envelopes (`Envelopes.EnvelopeLayout`),
the checksum word (`Adler.AdlerWord`) and log text (`LogStreams.TakenByNumbers`).

## Where the code does not do what it says

- **Compaction.** `common/buffer/Buffer.h:113-114` zeroes `readerIndex_` and then subtracts it from `writerIndex_`, so
  the assertion at line 115 fails whenever that branch is entered. `Buffers.Buffer.MakeSpace` has the intended order;
  all results about contents and runs are about that. The order as written is modelled too:
  `Buffers.Buffer.MakeSpaceAsWritten` gives the state that one call leaves, and
  `Buffers.Layout.AsWrittenIsRightUnlessCompacting` and `Framing.AsWrittenRuns` say exactly when the code as written is
  right. `Framing.AsWrittenFails` gives ordinary traffic on which it is not, and `Framing.EmptyMessagesFail` traffic on
  which it is not, however it is cut into chunks of at most 8188 bytes.
- **Empty messages.** The guard at `chat/Codec.cpp:15` is strict, so an empty message at the end of the stream waits
  for one more byte. `Framing.RoundTripExactly` has the exact condition.
- **Oversized messages.** `encode` frames messages that the decoder then refuses, and it stays blocked from there on.
- **Shared send buffer.** A client encodes behind all that it encoded before and then sends from the front of the
  buffer, which it never drains (`chat/ChatClient.cpp:50-62, 76-89`). So it sends the new frame only if it has sent
  nothing before or began with the same message (`Codecs.SentIsNewFrame`), and over a whole session of `test` the
  messages arrive only if they are all the same one (`Codecs.SenderMeetsDecoder`). `Codecs.SecondMessageIsLost` has the
  inputs.
- **Size of `sendBuf`.** `chat/ChatClient.cpp:40` copies to an array of 1024 bytes without comparing lengths. The pieces
  of `test` always fit; a whole frame from standard input fits if and only if the message has at most 1020 bytes.
  `Codecs.WholeIsNewFrame` and `Codecs.WholeSenderMeetsDecoder` have the exact conditions, for one message and for a
  session, and `Codecs.TooLongForOnePiece` the first length that fails.
- **Sign.** `convert` never writes a minus sign (`LogStreams.SameTextIffSameMagnitude`).
- **One byte at a time.** The comment at `chat/ChatClient.cpp:49` says so; the step is two.
- **NUL in a type name.** The envelope is decodable even then, because the name's length is part of it.

## Model

| member | source | states |
|---|---|---|
| `Buffers.Buffer.constructor` | common/buffer/Buffer.h:16-20 | a new buffer is an empty queue over storage of the asked size |
| `Buffers.Buffer.ReadableBytes` | common/buffer/Buffer.h:28-30 | the index difference is the length of the queue |
| `Buffers.Buffer.Swap` | common/buffer/Buffer.h:22-26 | both buffers exchange contents, storage and indices |
| `Buffers.Buffer.Retrieve` | common/buffer/Buffer.h:40-47 | drops exactly the first `len` bytes of the queue; emptying it resets both indices |
| `Buffers.Buffer.RetrieveAll` | common/buffer/Buffer.h:49-52 | empties the queue and frees all storage for writing |
| `Buffers.Buffer.RetrieveAsString` | common/buffer/Buffer.h:58-63 | returns the first `len` bytes of the queue and drops just those |
| `Buffers.Buffer.Append` | common/buffer/Buffer.h:66-70 | the queue grows by `src` at its end, whether the storage was large enough, was compacted or was replaced; the storage grows only as `Layout.Append` says |
| `Buffers.Buffer.EnsureWriteableBytes` | common/buffer/Buffer.h:72-77 | afterwards there is room for `len` bytes and the queue is unchanged |
| `Buffers.Buffer.MakeSpace` | common/buffer/Buffer.h:104-117 | growing and compacting in place both keep the queue; the storage changes size only when the free bytes at both ends do not suffice |
| `Buffers.Buffer.CopyToFront` | common/buffer/Buffer.h:112 | the overlapping forward copy moves the readable bytes to the front undamaged |
| `Buffers.Buffer.Resize` | common/buffer/Buffer.h:107 | the larger storage keeps every old byte at its place |
| `Buffers.Buffer.PeekAt` | chat/ChatClient.cpp:57-59 | a piece read at an offset from `peek()` is that slice of the queue |
| `Buffers.Buffer.PeekUInt32` | common/buffer/Buffer.cpp:7-12 | the word is the first four bytes in network order; nothing is consumed |
| `Buffers.Buffer.RetrieveUInt32` | common/buffer/Buffer.h:81-83 | drops exactly four bytes |
| `Buffers.Buffer.ReadUInt32` | common/buffer/Buffer.cpp:14-18 | returns the network-order word at the front and drops its four bytes |
| `Buffers.Buffer.WriteUInt32` | common/buffer/Buffer.h:85-88 | appends the four network-order bytes, the inverse of `ReadUInt32` |
| `Bytes.BigEndianRoundTrip` | common/buffer/Buffer.h:85-88 | a written word reads back as itself, whatever follows |
| `Bytes.BigEndianOfRead` | common/buffer/Buffer.cpp:7-12 | a word that was read is written as the same four bytes |
| `Bytes.BigEndianOrder` | common/buffer/Buffer.h:85-88 | network order: words are ordered as their bytes are, compared from the first on, which no other order of the bytes achieves |
| `Bytes.ToInt32` | chat/Codec.cpp:16 | the `int` that is congruent to the word modulo 2^32 |
| `Buffers.Layout.AppendKeepsValid` | common/buffer/Buffer.h:66-77 | the indices stay ordered and within the storage; the storage grows only if it is smaller than readable plus new bytes, and then ends at the new writer index |
| `Buffers.Layout.RetrieveTwice` | common/buffer/Buffer.h:40-52 | retrieving in two steps is retrieving once, also across the reset on empty |
| `Buffers.Buffer.MakeSpaceAsWritten` | common/buffer/Buffer.h:104-117 | with the statements in the order of the repository: the assertion at line 115 fails exactly when the branch compacts; then stale bytes follow the readable ones, the writer has not moved, and there is still less room than asked for, so the assertion at line 76 fails too |
| `Buffers.Layout.AsWrittenIsRightUnlessCompacting` | common/buffer/Buffer.h:104-117 | with lines 113 and 114 in the order of the repository, the assertion at line 115 fails exactly when the compacting branch is taken; otherwise the code does what was intended |
| `Framing.DrainConserves` | chat/Codec.cpp:14-28 | the bytes are exactly the frames of the delivered messages followed by the rest; no message exceeds 4096 bytes |
| `Framing.TakenByNumbers` | chat/Codec.cpp:14-28 | a message is taken exactly if more than 4 bytes are there, the first 4 are a network-order word of at most 4096, and that many bytes follow; a larger word sticks |
| `Framing.FrameLayout` | chat/Codec.cpp:30-35 | a frame is a network-order word with the length of the message, and the message |
| `Framing.DrainAppend` | chat/Codec.cpp:14-28 | more bytes never change what was delivered; decoding resumes from the rest |
| `Framing.ChunkIndependence` | chat/Codec.cpp:9-28 | any split of a stream into chunks delivers what one read of the whole delivers and leaves the same bytes, also after a refused length |
| `Framing.CutsDoNotMatter` | chat/Codec.cpp:9-28 | two splits of one stream cannot be told apart |
| `Framing.RunConserves` | chat/Codec.cpp:9-28 | over every run, bytes fed = frames of delivered messages + unread bytes, in order, and nothing deliverable is held |
| `Framing.StickyStop` | chat/Codec.cpp:15-19 | once a length above 4096 or negative as `int` heads the buffer, no later chunk delivers anything and every byte piles up |
| `Framing.DrainFrames` | chat/Codec.cpp:14-35 | draining encoded messages delivers those ahead of the first oversized one, less a final empty one, and leaves the frames of the others |
| `Framing.RoundTrip` | chat/Codec.cpp:9-35 | encode, cut anyhow, decode: exactly the deliverable messages, in order |
| `Framing.RoundTripExactly` | chat/Codec.cpp:9-35 | all messages come back if and only if each has at most 4096 bytes and the last is not empty |
| `Framing.MoreBytesRelease` | chat/Codec.cpp:15 | any further byte releases a withheld empty message |
| `Framing.DeliverableAll` | chat/Codec.cpp:15-19 | everything is deliverable if and only if all messages are short and the last is not empty |
| `Framing.AfterReadFits` | chat/Codec.cpp:9-28 | after a read the indices are in order, the readable bytes are the rest, and draining did not resize |
| `Framing.BoundedMemory` | chat/Codec.cpp:9-28 | until a chunk arrives on a stuck decoder, with chunks of at most r bytes: storage of at least 4099 + r bytes never grows, smaller storage never exceeds 4098 + 2r, and at most 4099 bytes stay unread |
| `Framing.BoundedFromTheStart` | chat/Codec.h:19-21 | from 8192 bytes on: with chunks of at most 4093 bytes the storage keeps its size; with larger ones it stays within 4098 + 2r |
| `Framing.BoundIsSharp` | common/buffer/Buffer.h:104-107 | for r of 2050 or more and every initial size from 4099 to 4098 + r, so for every r from 4094 on in a new decoder, the bound is attained, by a run that no refused length blocks |
| `Framing.AsWrittenRuns` | common/buffer/Buffer.h:104-117 | a run of the code as written gets through, and then agrees with the intended run, if and only if it never compacts |
| `Framing.AsWrittenFails` | common/buffer/Buffer.h:113-115 | two largest messages, cut ten bytes before the end, make the code as written fail its assertion |
| `Framing.AsWrittenNeedsRoomForAll` | common/buffer/Buffer.h:104-117 | while the buffer never runs empty, the code as written gets through if and only if the storage has room for all bytes ever read |
| `Framing.EmptyMessagesFail` | common/buffer/Buffer.h:113-115 | empty messages, cut into any chunks of 1 to 8188 bytes: a new decoder of 8192 bytes gets through if and only if they have at most 8192 bytes in all |
| `Codecs.Codec.constructor` | chat/Codec.h:19-21 | a new codec has delivered nothing and owns an empty buffer of 8192 bytes |
| `Codecs.Codec.OnUvRead` | chat/Codec.cpp:9-12 | one call is one step of the runs above: what is delivered, what stays unread, and the shape of the storage |
| `Codecs.Codec.OnMessage` | chat/Codec.cpp:14-28 | the loop delivers all complete short messages in order and leaves the rest |
| `Codecs.Codec.ReadAll` | chat/Codec.cpp:9-12 | a list of chunks read one after the other is a run of `Framing`: what is delivered, what stays unread, and the shape of the storage |
| `Codecs.ReadFromTheStart` | chat/Codec.cpp:9-28 | a new codec after any run: delivered and unread as `Framing` says, 8192 bytes of storage with chunks of at most 4093 bytes, and otherwise at most 4098 + 2r |
| `Codecs.Codec.Encode` | chat/Codec.cpp:30-35 | appends the frame of the C string and returns the frame's length; the string ends at its first NUL |
| `Codecs.SendSplit` | chat/ChatClient.cpp:50-62 | the pieces sent are the first bytes of the shared buffer, as many as the new frame has, in twos; the buffer keeps everything |
| `Codecs.SendRawContent` | chat/ChatClient.cpp:38-47 | the bytes copied are sent if the array of 1024 bytes holds them; otherwise nothing is promised |
| `Codecs.SendWhole` | chat/ChatClient.cpp:76-89 | the message is the C string at the start of the memory that was read into; its frame goes behind all earlier ones, and the same first bytes as in `SendSplit` are sent in one piece if the message has at most 1020 bytes |
| `Codecs.SendEach` | chat/ChatClient.cpp:50-62 | over a list of messages given to `test`: all that is sent, and what the buffer then holds |
| `Codecs.SendEachWhole` | chat/ChatClient.cpp:76-89 | over a list of messages at standard input: every copy is within bounds exactly if all have at most 1020 bytes, and then the same is sent as by `SendEach` |
| `Codecs.SentIsNewFrame` | chat/ChatClient.cpp:50-62 | the bytes sent are the new frame if and only if nothing was sent before or the first message sent was the same |
| `Codecs.SentIsGiven` | chat/ChatClient.cpp:50-62 | a client sends the frames of the messages it was given if and only if they are all the same message |
| `Codecs.SenderMeetsDecoder` | chat/ChatClient.cpp:50-62 | client to decoder, however the bytes are cut: the messages arrive if and only if they are all the same one, which has 1 to 4096 bytes |
| `Codecs.SecondMessageIsLost` | chat/ChatClient.cpp:50-62 | two different messages of equal length: the first arrives twice, the second never |
| `Codecs.WholeIsNewFrame` | chat/ChatClient.cpp:76-89 | the new frame is sent, within bounds, if and only if the message has at most 1020 bytes and nothing was sent before or the first message sent was the same |
| `Codecs.WholeSenderMeetsDecoder` | chat/ChatClient.cpp:76-89 | standard input to decoder, however the bytes are cut: all copies are within bounds and the messages arrive if and only if they are all the same one, which has 1 to 1020 bytes |
| `Codecs.TooLongForOnePiece` | chat/ChatClient.cpp:38-47 | the frame of a first message of 1021 bytes is one byte longer than the array it is copied to, though the decoder accepts it and `test` sends it |
| `Codecs.PiecesCoverAll` | chat/ChatClient.cpp:54-61 | the pieces concatenate to the whole, for odd and even lengths |
| `Codecs.PiecesCount` | chat/ChatClient.cpp:54-61 | half as many pieces as bytes, rounded up |
| `Codecs.PieceAt` | chat/ChatClient.cpp:54-61 | piece i is the two bytes from 2i on, or the one that is left |
| `Codecs.SplitSenderMeetsDecoder` | chat/ChatClient.cpp:50-62 | a fresh decoder fed the pieces of one frame delivers the message if it is not empty and has at most 4096 bytes, and nothing otherwise |
| `Wire.ReadVarintValue` | codec_test/query.pb.cc:300-302 | a varint, minimal or not, is read as the number of its groups of seven bits, least first; more than ten bytes are none |
| `Wire.VarintValue` | codec_test/query.pb.cc:372-374 | what is written ends with its last byte, stands for the number by its groups of seven bits, and has no superfluous byte |
| `Wire.VarintRoundTrip` | codec_test/query.pb.cc:300-302 | every 64-bit word, negative numbers included, reads back from its varint, whatever follows |
| `Wire.VarintSize` | codec_test/query.pb.cc:456-458 | the counted size is the length of the varint |
| `Wire.FieldRoundTrip` | codec_test/query.pb.cc:344-349 | a well-formed record, nested groups included, is skipped to exactly its end and comes back as it was |
| `Wire.NumberLayout` | codec_test/query.pb.cc:344-349 | wire type 0 is a varint, 1 takes eight bytes and 5 takes four, whatever they hold |
| `Wire.LengthLayout` | codec_test/query.pb.cc:344-349 | wire type 2 is a length, of which the low 32 bits count as a signed number, and that many bytes; nothing less is accepted |
| `Wire.GroupLayout` | codec_test/query.pb.cc:344-349 | wire type 3 opens a group, and the first wire type 4 behind its records closes it if it has the same number and fails otherwise |
| `Wire.NoOtherWireType` | codec_test/query.pb.cc:344-349 | wire types 4, 6 and 7 begin no record |
| `Wire.NextByNumbers` | codec_test/query.pb.cc:290-352 | which tags end a message, which are bad, and which begin a record, and where that begins |
| `Wire.HundredLevels` | codec_test/query.pb.cc:344-349 | unknown groups nest up to one hundred levels and no more |
| `Bytes.LittleEndianWeights` | codec_test/query.pb.cc:344-349 | the bytes of an unknown fixed-width number weigh 1, 256, 65536 and so on |
| `Wire.SkippedIsWellFormed` | codec_test/query.pb.cc:344-349 | whatever is read is well-formed and carries the tag it was read with |
| `Wire.SkipAppend` | codec_test/query.pb.cc:344-349 | bytes behind a record do not change how it is read |
| `Wire.FieldSize` | codec_test/query.pb.cc:467-471 | the size of an unknown record is what writing it takes |
| `Wire.FieldsAppend` | codec_test/query.pb.cc:290-352 | acceptance and the list of records go through concatenation of inputs |
| `Wire.FieldsRoundTrip` | codec_test/query.pb.cc:290-352 | a written list of records is accepted and reads back |
| `Streams.WroteTwice` | codec_test/query.pb.cc:409-438 | two adjoining writes to an array are one write of both pieces; nothing else changes |
| `Streams.WriteStrings` | codec_test/query.pb.cc:384-392 | the loop over a list of strings writes their records in order |
| `Streams.WriteStringsToArray` | codec_test/query.pb.cc:425-433 | the same records in place in an array |
| `Streams.StringsSize` | codec_test/query.pb.cc:486-492 | the size loop adds up to the bytes that the two writing loops write |
| `Schema.ParseConcatenation` | codec_test/query.pb.cc:285-360 | for any accepted first input and any second one, parsing the concatenation is merging the two parses, or failing with the second |
| `Schema.RoundTrip` | codec_test/query.pb.cc:362-399 | parsing a written message restores every field, presence, list element and unknown record, for all three types |
| `Schema.MergeHomomorphism` | codec_test/query.pb.cc:516-535 | two written messages one behind the other parse as the first with the second merged in |
| `Schema.Normalisation` | codec_test/query.pb.cc:285-399 | whatever was accepted, writing and parsing again gives the same message |
| `Schema.SerializeInjective` | codec_test/query.pb.cc:362-399 | different messages are written differently |
| `Schema.ParseFits` | codec_test/query.pb.cc:285-360 | every accepted input gives a message in range whose unknown records cannot be mistaken for known fields |
| `Schema.MergeBytesFits` | codec_test/query.pb.cc:285-360 | no input, accepted or not, leaves a message that could not be written; after a failed read this is said of the message before the field that failed |
| `Schema.TouchedFits` | codec_test/query.pb.cc:299-318 | after a known field that failed, the message can be written if and only if no string is too long |
| `Schema.MergeBytesIsMerge` | codec_test/query.pb.cc:285-360 | parsing into a message merges what a cleared one would have received; the end is reached exactly on the accepted inputs |
| `Schema.ReadingBack` | codec_test/query.pb.cc:285-399 | reading back a written message into any message is merging it |
| `Schema.TakeOwnFields` | codec_test/query.pb.cc:516-535 | reading the records of a message has the effect of MergeFrom |
| `Schema.MergeAssociative` | codec_test/query.pb.cc:516-535 | merging is associative |
| `Schema.MergeIdentity` | codec_test/query.pb.cc:268-283 | the cleared message is the identity of merging |
| `Schema.MergeFits` | codec_test/query.pb.cc:957-980 | merging keeps messages writable |
| `Schema.InitializedMerge` | codec_test/query.pb.cc:996-999 | a merge is initialized exactly when each required field is present in one of the two |
| `Schema.UnknownTag` | codec_test/query.pb.cc:1104-1126 | the tags that a switch knows are exactly those of the type's own fields; all other records become unknown fields |
| `Schema.IdOfWord` | codec_test/query.pb.cc:1107-1112 | `int32` takes the low 32 bits of the word, cut to 64 bits before or not |
| `Schema.PartsAreAll` | codec_test/query.pb.cc:770-817 | a serialization is the five parts in the order of the serializers |
| `Schema.WireLayout` | codec_test/query.pb.cc:770-817 | the bytes of a message with the tags as numbers: 08, 12, 1A, 22, and then the unknown records |
| `Schema.ReadsId` | codec_test/query.pb.cc:294-308 | the bytes behind the tag 08, minimal or not, are read as the number of their groups of seven bits, signed, of 64 bits or in Empty of 32 |
| `Schema.Int32SizeIsInt64Size` | codec_test/query.pb.cc:1188-1193 | the sign-extended size of an `int32` is that of the same `int64`; negative numbers take ten bytes |
| `Queries.Query.constructor` | codec_test/query.pb.cc:207-213 | a new message is the cleared one, with every absent field at its default |
| `Queries.Query.Copy` | codec_test/query.pb.cc:215-228 | equal to the original in every field, present or not |
| `Queries.Query.Clear` | codec_test/query.pb.cc:268-283 | back to the cleared message although only the strings marked present are emptied |
| `Queries.Query.MergeFrom` | codec_test/query.pb.cc:516-535 | the merge of the two messages; a cleared target becomes equal in every field |
| `Queries.Query.CopyFrom` | codec_test/query.pb.cc:544-549 | the target holds the source's message, equal in every field; copying onto itself changes nothing |
| `Queries.Query.IsInitialized` | codec_test/query.pb.cc:551-554 | true exactly when all required fields are present |
| `Queries.Query.ReadKnownField` | codec_test/query.pb.cc:294-342 | the switch takes a record exactly when its tag is one of the type's, with the effect of that record; if its content cannot be read it fails and leaves the field present, with its content open, and all else as it was |
| `Queries.Query.MergePartialFromCodedStream` | codec_test/query.pb.cc:285-360 | on every input: the outcome, the message and the remaining input that the fold over records gives; on a failed read, the message before the failed field with only that field touched |
| `Queries.Query.SerializeWithCachedSizes` | codec_test/query.pb.cc:362-399 | writes the records of the message, known fields in order and then the unknown ones |
| `Queries.Query.InternalSerializeWithCachedSizesToArray` | codec_test/query.pb.cc:401-441 | writes the same bytes in place and nothing outside of them |
| `Queries.Query.RequiredFieldsByteSizeFallback` | codec_test/query.pb.cc:443-462 | the size of the required fields that are present |
| `Queries.Query.ByteSizeLong` | codec_test/query.pb.cc:463-499 | exactly the number of bytes that both serializers write, by the fast path and by the fallback |
| `Answers.Answer.constructor` | codec_test/query.pb.cc:587-593 | a new message is the cleared one, with every absent field at its default |
| `Answers.Answer.Copy` | codec_test/query.pb.cc:595-612 | equal to the original in every field, present or not |
| `Answers.Answer.Clear` | codec_test/query.pb.cc:654-675 | back to the cleared message although only the strings marked present are emptied |
| `Answers.Answer.MergeFrom` | codec_test/query.pb.cc:957-980 | the merge of the two messages; a cleared target becomes equal in every field |
| `Answers.Answer.CopyFrom` | codec_test/query.pb.cc:989-994 | the target holds the source's message, equal in every field; copying onto itself changes nothing |
| `Answers.Answer.IsInitialized` | codec_test/query.pb.cc:996-999 | true exactly when all required fields are present |
| `Answers.Answer.ReadKnownField` | codec_test/query.pb.cc:686-758 | the switch takes a record exactly when its tag is one of the type's, with the effect of that record; if its content cannot be read it fails and leaves the field present, with its content open, and all else as it was |
| `Answers.Answer.MergePartialFromCodedStream` | codec_test/query.pb.cc:677-768 | on every input: the outcome, the message and the remaining input that the fold over records gives; on a failed read, the message before the failed field with only that field touched |
| `Answers.Answer.SerializeWithCachedSizes` | codec_test/query.pb.cc:770-817 | writes the records of the message, known fields in order and then the unknown ones |
| `Answers.Answer.InternalSerializeWithCachedSizesToArray` | codec_test/query.pb.cc:819-870 | writes the same bytes in place and nothing outside of them |
| `Answers.Answer.RequiredFieldsByteSizeFallback` | codec_test/query.pb.cc:872-898 | the size of the required fields that are present |
| `Answers.Answer.ByteSizeLong` | codec_test/query.pb.cc:899-940 | exactly the number of bytes that both serializers write, by the fast path and by the fallback |
| `Empties.Empty.constructor` | codec_test/query.pb.cc:1030-1036 | a new message is the cleared one, with every absent field at its default |
| `Empties.Empty.Copy` | codec_test/query.pb.cc:1038-1046 | equal to the original in every field, present or not |
| `Empties.Empty.Clear` | codec_test/query.pb.cc:1084-1093 | back to the cleared message |
| `Empties.Empty.MergeFrom` | codec_test/query.pb.cc:1217-1227 | the merge of the two messages; a cleared target becomes equal in every field |
| `Empties.Empty.CopyFrom` | codec_test/query.pb.cc:1236-1241 | the target holds the source's message, equal in every field; copying onto itself changes nothing |
| `Empties.Empty.IsInitialized` | codec_test/query.pb.cc:1243-1245 | true exactly when all required fields are present |
| `Empties.Empty.ReadKnownField` | codec_test/query.pb.cc:1104-1126 | the switch takes a record exactly when its tag is one of the type's, with the effect of that record; if its content cannot be read it fails and leaves the field present, with its content open, and all else as it was |
| `Empties.Empty.MergePartialFromCodedStream` | codec_test/query.pb.cc:1095-1137 | on every input: the outcome, the message and the remaining input that the fold over records gives; on a failed read, the message before the failed field with only that field touched |
| `Empties.Empty.SerializeWithCachedSizes` | codec_test/query.pb.cc:1139-1156 | writes the records of the message, known fields in order and then the unknown ones |
| `Empties.Empty.InternalSerializeWithCachedSizesToArray` | codec_test/query.pb.cc:1158-1177 | writes the same bytes in place and nothing outside of them |
| `Empties.Empty.ByteSizeLong` | codec_test/query.pb.cc:1179-1200 | exactly the number of bytes that both serializers write |
| `Queries.Query.SetHasId` | codec_test/query.pb.h:521-523 | marks the field present with the value it has; absent fields keep their defaults |
| `Queries.Query.SetId` | codec_test/query.pb.h:535-539 | the field is present with the new value, nothing else changes |
| `Queries.Query.ClearId` | codec_test/query.pb.h:527-530 | the field is absent and at its default, nothing else changes |
| `Queries.Query.SetHasQuestioner` | codec_test/query.pb.h:545-547 | marks the field present with the value it has; absent fields keep their defaults |
| `Queries.Query.SetQuestioner` | codec_test/query.pb.h:559-563 | the field is present with the new value, nothing else changes |
| `Queries.Query.MutableQuestioner` | codec_test/query.pb.h:584-588 | marks the field present with its current text |
| `Queries.Query.ClearQuestioner` | codec_test/query.pb.h:551-554 | the field is absent and at its default, nothing else changes |
| `Queries.Query.AddQuestion` | codec_test/query.pb.h:643-646 | one element more at the end of the list, nothing else |
| `Queries.Query.SetQuestion` | codec_test/query.pb.h:619-622 | one element of the list replaced, nothing else |
| `Queries.Query.ClearQuestion` | codec_test/query.pb.h:608-610 | the list is empty, nothing else changes |
| `Answers.Answer.SetHasId` | codec_test/query.pb.h:681-683 | marks the field present with the value it has; absent fields keep their defaults |
| `Answers.Answer.SetId` | codec_test/query.pb.h:695-699 | the field is present with the new value, nothing else changes |
| `Answers.Answer.ClearId` | codec_test/query.pb.h:687-690 | the field is absent and at its default, nothing else changes |
| `Answers.Answer.SetHasQuestioner` | codec_test/query.pb.h:705-707 | marks the field present with the value it has; absent fields keep their defaults |
| `Answers.Answer.SetHasAnswerer` | codec_test/query.pb.h:768-770 | marks the field present with the value it has; absent fields keep their defaults |
| `Answers.Answer.SetQuestioner` | codec_test/query.pb.h:719-723 | the field is present with the new value, nothing else changes |
| `Answers.Answer.SetAnswerer` | codec_test/query.pb.h:782-786 | the field is present with the new value, nothing else changes |
| `Answers.Answer.MutableQuestioner` | codec_test/query.pb.h:744-748 | marks the field present with its current text |
| `Answers.Answer.MutableAnswerer` | codec_test/query.pb.h:807-811 | marks the field present with its current text |
| `Answers.Answer.ClearQuestioner` | codec_test/query.pb.h:711-714 | the field is absent and at its default, nothing else changes |
| `Answers.Answer.ClearAnswerer` | codec_test/query.pb.h:774-777 | the field is absent and at its default, nothing else changes |
| `Answers.Answer.AddSolution` | codec_test/query.pb.h:866-869 | one element more at the end of the list, nothing else |
| `Answers.Answer.SetSolution` | codec_test/query.pb.h:842-845 | one element of the list replaced, nothing else |
| `Answers.Answer.ClearSolution` | codec_test/query.pb.h:831-833 | the list is empty, nothing else changes |
| `Empties.Empty.SetHasId` | codec_test/query.pb.h:904-906 | marks the field present with the value it has; absent fields keep their defaults |
| `Empties.Empty.SetId` | codec_test/query.pb.h:918-922 | the field is present with the new value, nothing else changes |
| `Empties.Empty.ClearId` | codec_test/query.pb.h:910-913 | the field is absent and at its default, nothing else changes |
| `Envelopes.Encode` | codec_test/protobuf_codec.h:19-40 | the back-patched result is the envelope of name and payload, or empty when appending the message fails |
| `Envelopes.EnvelopeLayout` | codec_test/protobuf_codec.h:19-40 | where a receiver finds the number of bytes that follow, the length of the name with its NUL, the name, the NUL, the payload, and the checksum of all between first word and trailer |
| `Envelopes.UniquelyDecodable` | codec_test/protobuf_codec.h:19-40 | an envelope at the front of any byte string determines name, payload and where it ends |
| `Envelopes.StreamSplitsOneWay` | codec_test/protobuf_codec.h:19-40 | a concatenation of envelopes splits in exactly one way |
| `Envelopes.EnvelopeOfMessage` | codec_test/protobuf_codec.h:23-27 | an envelope around a written message determines its type and every field |
| `Envelopes.SealedMatches` | codec_test/protobuf_codec.h:29-32 | the trailer of an envelope passes the receiver's check |
| `Envelopes.TrailersDiffer` | codec_test/protobuf_codec.h:29-32 | bodies of any length that differ in one byte have different trailers |
| `Envelopes.DamageIsNoticed` | codec_test/protobuf_codec.h:29-32 | damage to any one byte of body or trailer makes the check fail |
| `Envelopes.ExchangeInBody` | codec_test/protobuf_codec.h:29-32 | two exchanged bytes pass the check exactly when they are equal or a multiple of 65521 apart |
| `Adler.AdlerWord` | codec_test/protobuf_codec.h:30 | the sum of the bytes, from 1 on, in the low half of the word, and the weighted sum in the high half, both modulo 65521 |
| `Adler.SumsAfterUpdate` | codec_test/protobuf_codec.h:30 | byte i of n counts once in the plain sum and n - i times in the weighted sum |
| `Adler.AdlerOfAbc` | codec_test/protobuf_codec.h:30 | the checksum of abc is 024D0127 |
| `Adler.BaseIsPrime` | codec_test/protobuf_codec.h:30 | the modulus is 65521, and that is a prime |
| `Adler.NoPrimeAbove` | codec_test/protobuf_codec.h:30 | no greater number below 65536 is a prime |
| `Adler.ClosedForms` | codec_test/protobuf_codec.h:30 | the running sums are the plain sum and the weighted sum, reduced once |
| `Adler.UpdateAdler32` | codec_test/protobuf_codec.h:30 | the byte loop of the RFC continues a checksum correctly; started from 1 it gives the checksum of the bytes |
| `Adler.OneByteIsNoticed` | codec_test/protobuf_codec.h:30 | one changed byte always changes the checksum |
| `Adler.ExchangeIsNoticed` | codec_test/protobuf_codec.h:30 | exchanging two bytes keeps the checksum exactly when they are equal or a multiple of 65521 apart |
| `LogStreams.WriteDigits` | common/log/LogStream.cpp:16-22 | the loop ends for every `int`, the smallest included, with the digits of the magnitude in reverse |
| `LogStreams.ReverseInPlace` | common/log/LogStream.cpp:24 | reverses the range in place and touches nothing else |
| `LogStreams.Convert` | common/log/LogStream.cpp:14-26 | at most ten characters: the decimal numeral of the magnitude and a terminator, all within the reserve |
| `LogStreams.DecimalReadsBack` | common/log/LogStream.cpp:18-22 | the numeral consists of digits, has no superfluous leading zero and reads back as the number |
| `LogStreams.SameTextIffSameMagnitude` | common/log/LogStream.cpp:10-26 | no minus sign is written: two numbers have the same text exactly when they agree up to sign |
| `LogStreams.DigitTable` | common/log/LogStream.cpp:10-11 | the table gives the digit of the magnitude for negative remainders too |
| `LogStreams.FixedBuffer.constructor` | common/log/LogStream.h:19 | a new buffer is empty |
| `LogStreams.FixedBuffer.Append` | common/log/LogStream.h:22-28 | a piece goes in whole if it is shorter than the room, and otherwise not at all |
| `LogStreams.FixedBuffer.Add` | common/log/LogStream.h:34 | characters already in place become part of the contents |
| `LogStreams.FixedBuffer.Reset` | common/log/LogStream.h:35 | the contents are empty |
| `LogStreams.FixedBuffer.Length` | common/log/LogStream.h:32 | the cursor is the length of the contents |
| `LogStreams.FixedBuffer.ToString` | common/log/LogStream.h:37 | the contents |
| `LogStreams.LogStream.PutCString` | common/log/LogStream.h:55-62 | the string up to its NUL, or "(null)", whole or not at all |
| `LogStreams.LogStream.PutString` | common/log/LogStream.h:64-66 | the string up to its first NUL, whole or not at all |
| `LogStreams.LogStream.PutInt` | common/log/LogStream.cpp:29-40 | the numeral of the magnitude if the 32-byte reserve is free, else nothing |
| `LogStreams.LogStream.PutDouble` | common/log/LogStream.cpp:42-48 | the rendered number if the 32-byte reserve is free, else nothing |
| `LogStreams.TakenByNumbers` | common/log/LogStream.h:22-28 | a string is taken if the text stays below 4096 with it, a number if the text has at most 4064 so far; a string adds itself, the null pointer (null), and an `int` the usual numeral of its magnitude |
| `LogStreams.FirstInsertion` | common/log/LogStream.cpp:14-48 | what a new stream holds after one insertion: the string, (null), digits that read back as the magnitude, or the rendered number |
| `LogStreams.PutEach` | common/log/LogStream.h:49-66 | a chain of insertions into a stream gives the text that `RunOfPieces` and `NothingLost` are about, every string cut at its first NUL |
| `LogStreams.RunOfPieces` | common/log/LogStream.h:49-62 | after any run the text is the accepted pieces, whole and in order, and stays below 4096 bytes |
| `LogStreams.NothingLost` | common/log/LogStream.cpp:28-48 | everything arrives if and only if the whole text leaves one byte and every number starts where 32 bytes are left |
| `LogStreams.TextsArriveIffShort` | common/log/LogStream.h:22-28 | strings all arrive if and only if together they leave one byte |

## Left out

- Buffers.Buffer.MakeSpace: has the intended order of the two assignments in its compacting branch, not the written one, as described above.
- Codecs.Codec.Encode: messages of 2^31 - 4 bytes or more, whose length does not fit the `int` it is put into, are excluded.
- Codecs.SendSplit: the writes themselves, and what a pending write sends after `sendBuf` was overwritten for the next one, are I/O.
- Codecs.SendRawContent: what a copy beyond the end of `sendBuf` does is not defined; the same holds for Codecs.SendWhole.
- Codecs.SendEachWhole: says nothing about what follows such a copy.
- Queries.Query.MergePartialFromCodedStream: the text or the unknown records that a failed read leaves in the message, and where in the input it stops, are the library's and not specified; the model leaves them open. The same holds for Answer and Empty.
- Queries.Query.SerializeWithCachedSizes: strings of 2^31 bytes or more, which the library refuses to write, are excluded.
- Queries.Query.InternalSerializeWithCachedSizesToArray: excludes the same strings.
- Answers.Answer.SerializeWithCachedSizes: excludes the same strings.
- Answers.Answer.InternalSerializeWithCachedSizesToArray: excludes the same strings.
- Envelopes.Encode: names and messages whose lengths do not fit an `int32` are excluded.
- LogStreams.LogStream.PutDouble: the rendering of a floating-point number is a parameter of at most 31 characters.
- LogStreams.FixedBuffer.Add: the source does not check that the characters added are inside the array; the model requires it.
- Streams.CodedInputStream, Streams.CodedOutputStream: the library's streams, reduced to the calls that the generated code makes; a record of field number 0 is malformed.
- Whole runs of the code as written with assertions switched off, beyond the one call of `makeSpace` whose state after a failed assertion is given.
- The limit of the protobuf library on the total size of an input, cached sizes, arenas, reflection, descriptors, `Swap` and the release of owned strings: library machinery.
- Checks for valid UTF-8 in the generated code: they only log.
- The wrapper that clears a message, parses, and tests the end of the input and the required fields is in the library; `Schema.Parse` stands for the partial one.
- The callback of the codec: modelled as a list of delivered messages.
- Broadcasting in the chat server and connection handling: the shared output buffer is never drained, so the intended property does not hold.
- The SOCKS tunnel, file transfer, echo, ping-pong, file system and thread examples: plumbing around libuv without a deep property.
- Log levels, time stamps, time zones and output: library behaviour or not implemented.
