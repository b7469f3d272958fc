# Verified model of the room server

A Dafny model of a Windows chat-room server: clients pick a nickname, create and join rooms, and
see every change of a room as an event.  The project follows one event through the whole program,
from the message object to the bytes, into a framed packet, through a session's send queue, across
the socket in arbitrary pieces, and out of the receiver's parser; beside that chain stand the rooms
that say something, the registry that names players and rooms, the handlers that drive both, and
the life of a session.  What is proved is proved for every input, every run or every interleaving.

`dafny verify dfyconfig.toml` checks the project.

## The parts

- `Wire`, `Records`, `RecordWriter`, `Utf8`: the Protocol Buffers wire format ("Base 128 Varints",
  "Message Structure", "Length-Delimited Records" of the Encoding specification) as functions, and
  the library's unrolled readers and in-place writers as methods proved against them.  Text is
  valid as section 4 of RFC 3629 says.
- `PlayerMsg`, `RoomSummaryMsg`, `RoomSnapshotMsg`, `RoomEventMsg`: four generated messages.  Each
  module has a value type with its meaning as a list of records, and a class `Message` whose
  methods parse, size, serialize, merge and copy in place.
- `SendBuffers`, `Framing`, `Recv`: carving packets from chunks, what the receive loop makes of a
  byte stream, and the cursor buffer it runs on.
- `SendProtocol`, `SendSession`: the asynchronous send protocol as interleaved atomic steps of any
  number of threads and the kernel, and the session object whose methods are runs of those steps.
- `Rooms`, `RoomObjects`: a room as a value with runs, and as an object with loops over its members.
- `Registry`, `Managers`: the two-way index as a value with runs, and the manager object.
- `Membership`, `Handlers`: who is where, and the request handlers.
- `Lifecycle`: connecting, racing disconnects, and the service's bookkeeping.
- `EventSizes`: which events fit a send buffer.
- `EndToEnd`: the chain put together.

## Conventions and assumptions

- Integers are unbounded; 16-, 32- and 64-bit wrap-around is written out wherever the source relies
  on it or runs into it.  Multi-byte fields are little-endian.  Fixed-width fields are kept as bytes.
- The parsers read a few bytes beyond the input and find that out afterwards; the model refuses a
  read beyond the input at once, which accepts the same inputs.  A zero tag or a stray end-group tag
  is a failure at top level.  What a message holds after a failed parse is left open.
- The recursion budget (100 at top level, `Libraries/Include/google/protobuf/io/coded_stream.cc:89`)
  is a parameter, shared by submessages and groups as in the source.
- The inner loop over a repeated field may be told early that no byte is at hand; the model lets it
  stop at any time.
- A message that can exist is one the parser or a program can build: its retained unknown fields are
  well formed and have no case of their own (`Retained`), and its bytes stay below 2 GB (`Fits`).
- Lock sections are atomic steps; the write lock is recursive as `ServerCore/Lock.h:14` allows.
- `Membership` takes a join or a leave as one step.  In the source the change of the member map and
  the later store to the player's room id are separate, and other worker threads may run between
  them; while they do, the two may differ.
- What the kernel answers, and when, is open: WSASend may succeed, fail at once, or complete before
  the thread that posted it returns; DisconnectEx may post or fail.
- `RecvBuffer::Clean` is modelled as a copy in ascending order; the source calls memcpy, which is the
  same unless more than 294912 bytes are unread and the two ranges overlap.
- A chunk taken from the pool has no live buffer in it, so it is modelled as a new one.
- The bodies of `RecvBuffer`, `SendBuffer` and their chunks follow `RecvBuffer.cpp` and `SendBuffer.cpp`;
  those files are not UTF-8, so the table cites the declarations beside them.  `PacketHeader` is two
  16-bit fields, size and id, as `Session.h` declares it.
- The loops over members and rooms visit them in any order, which covers the order of the maps.
- Handlers are given live sessions of registered players; where the source would follow a null
  pointer, or stop in MakeSendBuffer, they report it, and nothing is said about the state then.

## Where the code does not do what one would expect

Each of these is proved, with the exact condition under which the code does:

- a failing `RegisterSend` gives its token back outside the lock, which can leave a buffer queued on
  a connected session with nobody to send it (`SendProtocol.NoLostWakeup`, `SendProtocol.LostWakeup`);
- buffers of a failed WSASend call are dropped while the session may stay connected
  (`SendProtocol.SocketStream`, `SendProtocol.FailedCallDropsBuffer`);
- `ProcessRecv` looks at as many bytes as just arrived, not at all unread ones, so a complete packet
  may wait for the next receive (`Framing.LagsExactlyWhen`), and waits for good, with all behind it,
  while every receive is shorter than the packet (`Framing.ShortReceivesStarve`);
- a header of size 0 keeps the receive loop going round for ever (`Framing.LoopTerminates`,
  `Framing.ZeroHeaderSpins`);
- a message of more than 5996 bytes is never sent: the process stops or the 16-bit size wraps
  (`SendBuffers.SendBufferManager.MakeSendBuffer`, `EventSizes.LongestNickname`, `EventSizes.OversizedEvents`);
- a refused join sets the player's room id all the same, and joining a second room does not leave the
  first (`Membership.MembershipAgreement`, `Membership.FullRoomBreaksAgreement`,
  `Membership.SecondRoomBreaksAgreement`);
- a removed object is unregistered under the name it has now (`Registry.RemoveKeepsConsistent`,
  `Registry.RenamedRemovalLeavesName`); nothing in the repository removes or renames one yet;
- a disconnect that completes before `AddSession` fails the assertion in `ReleaseSession`
  (`Lifecycle.SessionLifecycle`, `Lifecycle.EarlyDisconnectCrashes`);
- parsing a concatenation is merging, for bytes of whatever origin, exactly when every field whose
  last record in the second part is an explicit zero or empty value is still at its default behind
  the first; written bytes hold no such record (`RoomSummaryMsg.ConcatenationMergesExactlyWhen` and its namesakes for the
  other messages, `RoomSummaryMsg.ExplicitZeroOverwrites`).

## Model

| member | source | states |
|---|---|---|
| `Wire.Varint64RoundTrip` | Libraries/Include/google/protobuf/io/coded_stream.h:906-929 | every 64-bit value written as a varint is read back as itself with its own length, whatever bytes follow |
| `Wire.TagRoundTrip` | Libraries/Include/google/protobuf/parse_context.h:542-557 | every 32-bit tag survives writing and reading, whatever follows |
| `Wire.LengthRoundTrip` | Libraries/Include/google/protobuf/parse_context.cc:410-428 | every length up to the accepted maximum survives writing and reading, whatever follows |
| `Wire.PrimitivesIgnoreSuffix` | Libraries/Include/google/protobuf/parse_context.h:519-533 | a varint, tag or length that can be read is read the same when more bytes follow |
| `Wire.VarintExamples` | Libraries/Include/google/protobuf/io/coded_stream.h:906-929 | the examples of the Encoding specification byte for byte, and ten bytes for the largest number |
| `Wire.VarintLimits` | Libraries/Include/google/protobuf/parse_context.cc:374-428 | of a number that goes on for n bytes a value takes at most ten and drops the bits above 64, a tag at most five and drops those above 32, a length at most five |
| `Wire.LengthLimit` | Libraries/Include/google/protobuf/parse_context.cc:410-428 | a written length is accepted exactly up to 2147483631, whatever follows |
| `Wire.ReadVarint64` | Libraries/Include/google/protobuf/parse_context.h:519-533 | the two unrolled bytes with their wrapping arithmetic and the slow path read exactly the standard's varint of at most ten bytes, modulo 2^64 |
| `Wire.ReadVarint64Slow` | Libraries/Include/google/protobuf/parse_context.cc:387-397 | the loop that adds `(byte - 1) << 7i` modulo 2^64 to a running sum yields the standard's value, and fails when ten bytes all continue |
| `Wire.AccumulateStep` | Libraries/Include/google/protobuf/parse_context.cc:387-397 | one more byte of the wrapping sum turns the value of the bytes so far into the value with that byte, minus the pending continuation bit |
| `Wire.ReadTag` | Libraries/Include/google/protobuf/parse_context.h:542-557 | the unrolled tag reader with its 32-bit sums reads exactly a varint of at most five bytes modulo 2^32 |
| `Wire.ReadSize` | Libraries/Include/google/protobuf/parse_context.h:609-619 | the unrolled size reader accepts exactly the lengths of at most five bytes up to INT_MAX - 16 |
| `Wire.ReadLastSizeByte` | Libraries/Include/google/protobuf/parse_context.cc:419-427 | the fifth length byte is accepted exactly when it is below 8 and the sum stays within the limit |
| `Wire.VarintSizeIsLength` | Libraries/Include/google/protobuf/io/coded_stream.h:1678-1696 | the log2-times-9 formula is the exact number of bytes the encoder writes, for every 64-bit value |
| `Wire.WriteVarint` | Libraries/Include/google/protobuf/io/coded_stream.h:906-929 | the in-place writer that patches continuation bits afterwards writes exactly the encoding and no other byte |
| `Wire.WriteRaw` | Libraries/Include/google/protobuf/io/coded_stream.h:721-731 | copying a string into the buffer writes exactly its bytes and no other |
| `Utf8.ValidUtf8IsEncoding` | Libraries/Include/google/protobuf/stubs/structurally_valid.cc:555-563 | the accepted strings are exactly the encodings of sequences of code points without surrogates, up to U+10FFFF |
| `Utf8.Utf8Examples` | Libraries/Include/google/protobuf/stubs/structurally_valid.cc:555-563 | a three- and a four-byte sign are accepted; overlong forms, surrogates, code points beyond U+10FFFF and cut-off signs are not |
| `Records.RecordRoundTrip` | Libraries/Include/google/protobuf/parse_context.h:734-778 | every well-formed record, nested groups included, is read back equal with its own length, whatever follows |
| `Records.GroupRoundTrip` | Libraries/Include/google/protobuf/parse_context.h:403-412 | a written group is read back up to its own end tag |
| `Records.ReadRecordIsWellFormed` | Libraries/Include/google/protobuf/parse_context.h:734-778 | whatever the reader accepts is a record the writer may write |
| `Records.ParseConcatenation` | Libraries/Include/google/protobuf/parse_context.h:781-796 | parsing a concatenation continues the parse of its accepted first part |
| `Records.ParseOfEncoded` | Libraries/Include/google/protobuf/parse_context.h:781-796 | parsing written records is applying them one after the other |
| `Records.KeyBytes` | Libraries/Include/google/protobuf/parse_context.h:734-778 | the key byte and layout of field 1 in each of the five wire types |
| `Records.TooDeepIsRefused` | Libraries/Include/google/protobuf/parse_context.h:403-412 | groups nested deeper than the recursion budget are refused, whatever follows |
| `Records.ReadString` | Libraries/Include/google/protobuf/parse_context.cc:449-454 | the string reader reads exactly a length-delimited payload |
| `Records.RecordsSizeIsLength` | Libraries/Include/google/protobuf/wire_format.cc:266-306 | the size computed for retained unknown fields is the number of bytes written for them |
| `Records.LengthDelimitedSizeIsLength` | Libraries/Include/google/protobuf/wire_format_lite.h:1780-1787 | payload plus the size of its 32-bit length prefix is what is written, up to the maximal length |
| `RecordWriter.WriteRecords` | Libraries/Include/google/protobuf/wire_format.cc:192-228 | the recursive in-place writer of retained fields writes exactly their encoding behind what was written before |
| `RecordWriter.WriteRecord` | Libraries/Include/google/protobuf/wire_format.cc:197-225 | one retained field of any wire type is written as its record |
| `RecordWriter.WriteGroupBody` | Libraries/Include/google/protobuf/wire_format.cc:216-223 | a retained group is written as its fields and its end tag |
| `RecordWriter.WriteOptUInt64` | GameServer/Struct.pb.cc:270-274 | a numeric field is written unless it is zero |
| `RecordWriter.WriteOptString` | GameServer/Struct.pb.cc:276-285 | a string field is written unless it is empty |
| `RecordWriter.WriteString` | Libraries/Include/google/protobuf/io/coded_stream.h:721-731 | both string paths write tag, length and bytes |
| `RecordWriter.WriteLengthPrefix` | Libraries/Include/google/protobuf/wire_format_lite.h:1691-1698 | a submessage is preceded by its tag and its cached size |
| `PlayerMsg.RoundTrip` | GameServer/Struct.pb.cc:221-294 | any Player that can exist, retained unknown fields included, is read back equal from its own bytes exactly when all its text is UTF-8 |
| `PlayerMsg.ParseIsMerge` | GameServer/Struct.pb.cc:221-264 | parsing the bytes of one Player into another merges them, and fails exactly on text that is not UTF-8 |
| `PlayerMsg.ConcatenationIsMerge` | GameServer/Struct.pb.cc:342-355 | accepted bytes followed by a written Player parse to the merge of the two |
| `PlayerMsg.ByteSizeIsLength` | GameServer/Struct.pb.cc:296-325 | the separately computed size is the number of bytes written |
| `PlayerMsg.Message.InternalParse` | GameServer/Struct.pb.cc:221-264 | the tag-switch loop succeeds exactly on the inputs the record-by-record parse accepts and gives its message, for every input |
| `PlayerMsg.Message.ByteSizeLong` | GameServer/Struct.pb.cc:296-325 | returns and caches the written length |
| `PlayerMsg.Message.InternalSerialize` | GameServer/Struct.pb.cc:266-294 | writes exactly the encoding at the target and no other byte |
| `PlayerMsg.Message.MergeFrom` | GameServer/Struct.pb.cc:342-355 | the message becomes the merge of its old value and the other, which is unchanged |
| `PlayerMsg.Message.CopyFrom` | GameServer/Struct.pb.cc:364-369 | the message becomes equal to the other; copying to itself changes nothing |
| `PlayerMsg.Message.Clear` | GameServer/Struct.pb.cc:210-219 | the message becomes the default one |
| `PlayerMsg.ConcatenationMergesExactlyWhen` | GameServer/Struct.pb.cc:221-355 | for any two accepted inputs, parsing one behind the other merges the two Player messages exactly when every field whose last record in the second is an explicit zero or empty value is still at its default behind the first |
| `PlayerMsg.FieldsByKey` | GameServer/Struct.pb.cc:221-264 | the bytes of id (key 0x08) and name (key 0x12) set exactly that field of any message, a name that is not UTF-8 is refused, and any other record is retained |
| `PlayerMsg.Layout` | GameServer/Struct.pb.cc:266-294 | the written bytes key by key: id, name, then what is retained, each left out at its default |
| `PlayerMsg.ParseIsOver` | GameServer/Struct.pb.cc:221-264 | a scan of the input decides what parsing it into any message does, failure included |
| `PlayerMsg.ParsedIsRetained` | GameServer/Struct.pb.cc:221-264 | what a parse produces can be written back |
| `RoomSummaryMsg.RoundTrip` | GameServer/Struct.pb.cc:460-559 | any RoomSummary that can exist, retained unknown fields included, is read back equal from its own bytes exactly when all its text is UTF-8 |
| `RoomSummaryMsg.ParseIsMerge` | GameServer/Struct.pb.cc:460-517 | parsing the bytes of one RoomSummary into another merges them, and fails exactly on text that is not UTF-8 |
| `RoomSummaryMsg.ConcatenationIsMerge` | GameServer/Struct.pb.cc:621-640 | accepted bytes followed by a written RoomSummary parse to the merge of the two |
| `RoomSummaryMsg.ByteSizeIsLength` | GameServer/Struct.pb.cc:561-604 | the separately computed size is the number of bytes written |
| `RoomSummaryMsg.Message.InternalParse` | GameServer/Struct.pb.cc:460-517 | the tag-switch loop succeeds exactly on the inputs the record-by-record parse accepts and gives its message, for every input |
| `RoomSummaryMsg.Message.ByteSizeLong` | GameServer/Struct.pb.cc:561-604 | returns and caches the written length |
| `RoomSummaryMsg.Message.InternalSerialize` | GameServer/Struct.pb.cc:519-559 | writes exactly the encoding at the target and no other byte |
| `RoomSummaryMsg.Message.MergeFrom` | GameServer/Struct.pb.cc:621-640 | the message becomes the merge of its old value and the other, which is unchanged |
| `RoomSummaryMsg.Message.CopyFrom` | GameServer/Struct.pb.cc:649-654 | the message becomes equal to the other; copying to itself changes nothing |
| `RoomSummaryMsg.Message.Clear` | GameServer/Struct.pb.cc:447-458 | the message becomes the default one |
| `RoomSummaryMsg.ConcatenationMergesExactlyWhen` | GameServer/Struct.pb.cc:460-640 | for any two accepted inputs, parsing one behind the other merges the two RoomSummary messages exactly when every field whose last record in the second is an explicit zero or empty value is still at its default behind the first |
| `RoomSummaryMsg.FieldsByKey` | GameServer/Struct.pb.cc:460-517 | the bytes of each key set exactly that field: 0x08 roomId, 0x12 name, 0x18 playerCount, 0x20 maxPlayers; any other record is retained |
| `RoomSummaryMsg.Layout` | GameServer/Struct.pb.cc:519-559 | the written bytes key by key: roomId, name, playerCount, maxPlayers, then what is retained |
| `RoomSummaryMsg.ParseIsOver` | GameServer/Struct.pb.cc:460-517 | a scan of the input decides what parsing it into any message does, failure included |
| `RoomSummaryMsg.ParsedIsRetained` | GameServer/Struct.pb.cc:460-517 | what a parse produces can be written back |
| `RoomSummaryMsg.ExplicitZeroOverwrites` | GameServer/Struct.pb.cc:460-517 | an input that does not merge: an explicit zero parses to the default message, which merges as nothing, yet behind other bytes it sets the field to zero |
| `RoomSummaryMsg.WriteSummary` | GameServer/Struct.pb.cc:805-811 | a summary inside another message is written behind its cached size, exactly as one length-delimited record |
| `RoomSnapshotMsg.RoundTrip` | GameServer/Struct.pb.cc:751-827 | any RoomSnapshot that can exist, retained unknown fields included, is read back equal from its own bytes exactly when all its text is UTF-8 |
| `RoomSnapshotMsg.ParseIsMerge` | GameServer/Struct.pb.cc:751-797 | parsing the bytes of one RoomSnapshot into another merges them, and fails exactly on text that is not UTF-8 |
| `RoomSnapshotMsg.ConcatenationIsMerge` | GameServer/Struct.pb.cc:875-886 | accepted bytes followed by a written RoomSnapshot parse to the merge of the two |
| `RoomSnapshotMsg.ByteSizeIsLength` | GameServer/Struct.pb.cc:829-858 | the separately computed size is the number of bytes written |
| `RoomSnapshotMsg.Message.InternalParse` | GameServer/Struct.pb.cc:751-797 | the tag-switch loop succeeds exactly on the inputs the record-by-record parse accepts and gives its message, for every input |
| `RoomSnapshotMsg.Message.ByteSizeLong` | GameServer/Struct.pb.cc:829-858 | returns and caches the written length, and leaves the written length of every nested message cached |
| `RoomSnapshotMsg.Message.InternalSerialize` | GameServer/Struct.pb.cc:799-827 | writes exactly the encoding at the target and no other byte, with the cached sizes as length prefixes |
| `RoomSnapshotMsg.Message.MergeFrom` | GameServer/Struct.pb.cc:875-886 | the message becomes the merge of its old value and the other, which is unchanged |
| `RoomSnapshotMsg.Message.CopyFrom` | GameServer/Struct.pb.cc:895-900 | the message becomes equal to the other; copying to itself changes nothing |
| `RoomSnapshotMsg.Message.Clear` | GameServer/Struct.pb.cc:737-749 | the message becomes the default one |
| `RoomSnapshotMsg.ConcatenationMergesExactlyWhen` | GameServer/Struct.pb.cc:751-886 | for any two accepted inputs, parsing one behind the other merges the two RoomSnapshot messages exactly when every field whose last record in the second is an explicit zero or empty value is still at its default behind the first; only fields of the summary can fail it |
| `RoomSnapshotMsg.InfoByKey` | GameServer/Struct.pb.cc:757-763 | a record with key 0x0A is parsed into the summary there is, or into a new one |
| `RoomSnapshotMsg.PlayerByKey` | GameServer/Struct.pb.cc:764-775 | each record with key 0x12 becomes one more player behind the others |
| `RoomSnapshotMsg.Layout` | GameServer/Struct.pb.cc:799-827 | the written bytes key by key: the summary if present, one record for each player, then what is retained |
| `RoomSnapshotMsg.ParseIsOver` | GameServer/Struct.pb.cc:751-797 | a scan of the input decides what parsing it into any message does, failure included |
| `RoomSnapshotMsg.Message.ParsePlayers` | GameServer/Struct.pb.cc:764-775 | the inner loop over a run of players, with its one-byte tag comparison and its freedom to stop early, comes to the same message and the same remaining bytes as one round of the outer loop per player, for every input |
| `RoomSnapshotMsg.Message.ParsePlayer` | GameServer/Struct.pb.cc:764-775 | one player is parsed into a new element one level further down |
| `RoomSnapshotMsg.Message.ParseInfo` | GameServer/Struct.pb.cc:757-763 | the summary is parsed into in place, so a second one merges into the first |
| `RoomSnapshotMsg.Reparse` | GameServer/Struct.pb.cc:751-827 | for any accepted bytes, writing the result and parsing it again gives the same message |
| `RoomSnapshotMsg.SizePlayers` | GameServer/Struct.pb.cc:837-842 | the loop adds up every player's delimited size and leaves each size cached |
| `RoomSnapshotMsg.WritePlayers` | GameServer/Struct.pb.cc:813-819 | the loop writes every player behind its cached size, in order |
| `RoomSnapshotMsg.CopyPlayers` | GameServer/Struct.pb.cc:882 | merging a repeated field appends fresh copies of the other's elements |
| `RoomEventMsg.RoundTrip` | GameServer/Protocol.pb.cc:2440-2543 | any S_ROOM_EVENT that can exist, retained unknown fields included, is read back equal from its own bytes exactly when all its text is UTF-8 |
| `RoomEventMsg.ParseIsMerge` | GameServer/Protocol.pb.cc:2440-2498 | parsing the bytes of one S_ROOM_EVENT into another merges them, and fails exactly on text that is not UTF-8 |
| `RoomEventMsg.ConcatenationIsMerge` | GameServer/Protocol.pb.cc:2604-2623 | accepted bytes followed by a written S_ROOM_EVENT parse to the merge of the two |
| `RoomEventMsg.ByteSizeIsLength` | GameServer/Protocol.pb.cc:2545-2587 | the separately computed size is the number of bytes written |
| `RoomEventMsg.Message.InternalParse` | GameServer/Protocol.pb.cc:2440-2498 | the tag-switch loop succeeds exactly on the inputs the record-by-record parse accepts and gives its message, for every input |
| `RoomEventMsg.Message.ByteSizeLong` | GameServer/Protocol.pb.cc:2545-2587 | returns and caches the written length, and leaves the written length of every nested message cached |
| `RoomEventMsg.Message.InternalSerialize` | GameServer/Protocol.pb.cc:2500-2543 | writes exactly the encoding at the target and no other byte, with the cached sizes as length prefixes |
| `RoomEventMsg.Message.MergeFrom` | GameServer/Protocol.pb.cc:2604-2623 | the message becomes the merge of its old value and the other, which is unchanged |
| `RoomEventMsg.Message.CopyFrom` | GameServer/Protocol.pb.cc:2632-2637 | the message becomes equal to the other; copying to itself changes nothing |
| `RoomEventMsg.Message.Clear` | GameServer/Protocol.pb.cc:2423-2438 | the message becomes the default one |
| `RoomEventMsg.ConcatenationMergesExactlyWhen` | GameServer/Protocol.pb.cc:2440-2623 | for any two accepted inputs, parsing one behind the other merges the two S_ROOM_EVENT messages exactly when every field whose last record in the second is an explicit zero or empty value is still at its default behind the first, the fields of the room included |
| `RoomEventMsg.FieldsByKey` | GameServer/Protocol.pb.cc:2446-2475 | the bytes of each key set exactly that field: 0x08 type cut to 32 bits, 0x18 playerId, 0x22 nickname, refused unless UTF-8 |
| `RoomEventMsg.RoomByKey` | GameServer/Protocol.pb.cc:2454-2460 | a record with key 0x12 is parsed into the room there is, or into a new one |
| `RoomEventMsg.OthersByKey` | GameServer/Protocol.pb.cc:2476-2491 | any other record is retained behind those retained before |
| `RoomEventMsg.Layout` | GameServer/Protocol.pb.cc:2500-2543 | the written bytes key by key: type, room if present, playerId, nickname, then what is retained |
| `RoomEventMsg.ParseIsOver` | GameServer/Protocol.pb.cc:2440-2498 | a scan of the input decides what parsing it into any message does, failure included |
| `RoomEventMsg.EnumRoundTrip` | GameServer/Protocol.pb.cc:2446-2453 | an enum written as a 64-bit sign extension and read by truncation is unchanged, negative numbers included |
| `RoomEventMsg.EnumBytes` | GameServer/Protocol.pb.cc:2446-2453 | a non-negative enum is written as itself and a negative one as 2^64 plus it; the bits above 32 are dropped on reading |
| `RoomEventMsg.EnumSizeIsLength` | Libraries/Include/google/protobuf/wire_format_lite.h:1745-1747 | ten bytes for a negative enum and its varint size otherwise is what is written |
| `RoomEventMsg.Message.ParseNumber` | GameServer/Protocol.pb.cc:2446-2467 | enum and id are read as varints, the enum truncated to 32 bits |
| `RoomEventMsg.Message.ParseRoom` | GameServer/Protocol.pb.cc:2454-2460 | the optional room is parsed into in place, one level down |
| `RoomEventMsg.Message.ParseNickname` | GameServer/Protocol.pb.cc:2468-2475 | the nickname is read and refused unless it is UTF-8 |
| `RoomEventMsg.Reparse` | GameServer/Protocol.pb.cc:2440-2543 | for any accepted bytes, writing the result and parsing it again gives the same message |
| `Framing.LoopTerminates` | ServerCore/Session.cpp:321-341 | the receive loop ends exactly when it never stands on a complete header of size 0, and otherwise goes round for ever at that header |
| `Framing.LeavesWhenDone` | ServerCore/Session.cpp:321-341 | when the loop ends it has taken one round per packet and stands where it returns |
| `Framing.Reassemble` | ServerCore/Session.cpp:317-342 | the bytes returned as processed are within the received ones and are exactly the packets handed on, one behind the other |
| `Framing.ReassembleMore` | ServerCore/Session.cpp:317-342 | more bytes never revise packets already handed on |
| `Framing.ReassembleStream` | ServerCore/Session.cpp:317-342 | well-framed packets with any incomplete rest behind them are taken apart into exactly those packets, and their total size is returned |
| `Framing.PrefixDelivery` | ServerCore/Session.cpp:245-271 | for every split of any byte stream into receives, the packets handed on are first packets of the stream in order, and with the unread bytes they are exactly what arrived |
| `Framing.WellFramedDelivery` | ServerCore/Session.cpp:245-271 | a receiver of a well-framed stream never hangs and hands on a prefix of its packets, however it is split |
| `Framing.LagsExactlyWhen` | ServerCore/Session.cpp:258-264 | since only as many bytes as just arrived are looked at, a receive leaves a complete packet behind exactly when taking every complete packet would mean looking further than that |
| `Framing.ReachOfStream` | ServerCore/Session.cpp:258-264 | in a well-framed stream taking every packet means looking at exactly their bytes |
| `Framing.EmptyBufferNeverLags` | ServerCore/Session.cpp:258-264 | a receive into an empty buffer leaves less than one packet |
| `Framing.ShortReceivesStarve` | ServerCore/Session.cpp:258-264 | while every receive is too short for a header or shorter than the packet the unread bytes begin with, nothing is ever handed on and the bytes only pile up |
| `Framing.LargePacketStarves` | ServerCore/Session.cpp:258-264 | a packet at the front waits for good behind receives that are each shorter than it |
| `Framing.SmallChunksStarve` | ServerCore/Session.cpp:258-264 | receives of fewer than four bytes hand on nothing at all, however much has arrived |
| `Framing.ZeroHeaderSpins` | ServerCore/Session.cpp:321-341 | four zero bytes: the loop stands on them in every round |
| `Recv.RecvBuffer.constructor` | ServerCore/RecvBuffer.h:9-14 | the buffer starts empty with ten times the nominal size |
| `Recv.RecvBuffer.OnWrite` | ServerCore/RecvBuffer.h:19-24 | received bytes join the unread ones, or nothing changes when they do not fit |
| `Recv.RecvBuffer.OnRead` | ServerCore/RecvBuffer.h:18-23 | the first unread bytes are dropped, or nothing changes when there are fewer |
| `Recv.RecvBuffer.Clean` | ServerCore/RecvBuffer.h:17-32 | cursors move, unread bytes stay; afterwards the nominal size is free or the unread bytes stand at the front |
| `Recv.PacketSession.OnRecv` | ServerCore/Session.cpp:317-342 | the loop over the buffer hands on exactly the packets of the reassembly and returns exactly their size, and hangs exactly where that does |
| `Recv.PacketSession.ProcessRecv` | ServerCore/Session.cpp:245-271 | one completed receive on the in-place buffer is one step of the receiver; neither overflow disconnect behind the first is ever taken |
| `SendBuffers.PacketIsFramed` | GameServer/ClientPacketHandler.h:76-88 | a packet is well framed, and its id and payload are recovered from it |
| `SendBuffers.HeaderBytes` | GameServer/ClientPacketHandler.h:77-83 | the first four bytes of a packet: its total length and its id, low byte first |
| `SendBuffers.SendBufferManager.MakeSendBuffer` | GameServer/ClientPacketHandler.h:75-88 | a buffer comes out exactly when header and message fit a 6000-byte chunk (for which messages they do, see EventSizes); it holds the framed message and no byte handed out before has changed; the 16-bit packet size wraps below a header exactly for the sizes stated, and the process stops for all others |
| `SendBuffers.SendBufferManager.Fill` | GameServer/ClientPacketHandler.h:81-87 | header, serialization and Close yield the packet, or the serialization is refused exactly when the message is larger than its 16-bit size |
| `SendBuffers.SendBufferManager.WriteHeader` | GameServer/ClientPacketHandler.h:81-83 | size and id are written little-endian at the front and nothing else changes |
| `SendBuffers.SendBufferManager.Open` | ServerCore/SendBuffer.h:63-71 | a block comes from the current chunk while it fits, otherwise from a chunk of its own |
| `SendBuffers.SendBufferChunk.Open` | ServerCore/SendBuffer.h:33-53 | the block starts where the used part ends, and the chunk is open |
| `SendBuffers.SendBufferChunk.Close` | ServerCore/SendBuffer.h:44-53 | the written part is given away for good |
| `SendBuffers.SendBuffer.Close` | ServerCore/SendBuffer.h:10-24 | the buffer lies within what its chunk has given away |
| `EndToEnd.PacketRoundTrip` | GameServer/ClientPacketHandler.h:63-88 | an event framed as a packet with id 1009 and handled as one is itself again, exactly when its text is UTF-8 |
| `EndToEnd.NestingLimit` | Libraries/Include/google/protobuf/io/coded_stream.cc:89 | a packet with a hundred levels of groups is read and kept; one more level is refused |
| `EndToEnd.StreamOfEvents` | ServerCore/Session.cpp:317-342 | one receive of the packets of any list of events, any incomplete rest behind them, hands on exactly those packets, takes exactly their bytes, and each parses back to its event |
| `EndToEnd.CutStream` | ServerCore/Session.cpp:245-271 | any initial part of a well-framed stream is some whole packets and an incomplete rest |
| `EndToEnd.EventsArriveInOrder` | ServerCore/Session.cpp:19-53 | for any interleaving of senders, completions, failures and disconnects and any split into receives, the receiver is handed a prefix of the accepted packets; they are events at increasing positions of those queued, each read back as it was, and while no WSASend call has failed they are the first ones without a gap |
| `EventSizes.OversizedEvents` | GameServer/ClientPacketHandler.h:77-84 | two nicknames too long to tell anybody: with one the process stops, with the other the packet size wraps |
| `EventSizes.NicknameEventSize` | GameServer/ClientPacketHandler.h:77-78 | an event with only a nickname takes three or four bytes more than the nickname |
| `EventSizes.LongestNickname` | GameServer/ClientPacketHandler.h:77-87 | an event with only a nickname can be sent exactly up to 5993 bytes of it, and its packet size wraps exactly from 65528 to 65531 |
| `EventSizes.RoomEventFits` | GameServer/ClientPacketHandler.h:77-87 | an event whose room name and nickname have at most 5900 bytes together takes at most 5964 and can be sent, whatever its numbers |
| `EndToEnd.SocketPrefix` | ServerCore/Session.cpp:164-208 | while no call has failed, a socket has been given a first part of the room messages its session was sent |
| `EndToEnd.MembersGetOneOrder` | GameServer/Room.cpp:8-63 | two members stay through a run, whatever each has heard before: beyond that, both sockets carry a first part of the one sequence the room says, so one part is a prefix of the other |
| `SendProtocol.SendExclusivity` | ServerCore/Session.cpp:164-208 | in every reachable state at most one thread or posted call owns the send event; RegisterSend finds it empty and something queued; no WSASend call is empty; the event keeps the buffers of the call in flight |
| `SendProtocol.SendFifo` | ServerCore/Session.cpp:34-47 | in every reachable state the batches drained so far, what a thread is about to post, and the queue are together the buffers as pushed |
| `SendProtocol.SocketStream` | ServerCore/Session.cpp:198-207 | the accepted calls carry the pushed buffers without a gap exactly when no call failed |
| `SendProtocol.AcceptedIsShorter` | ServerCore/Session.cpp:198-207 | a failed call loses buffers: the accepted stream is the whole drained one exactly when every call was accepted |
| `SendProtocol.AcceptedInOrder` | ServerCore/Session.cpp:198-207 | whatever fails, the accepted calls carry some of the drained buffers in their order |
| `SendProtocol.FailedCallDropsBuffer` | ServerCore/Session.cpp:199-206 | one failed call on a session that stays connected: its buffer was drained and is never sent |
| `SendProtocol.NoLostWakeup` | ServerCore/Session.cpp:199-207 | while connected, a non-empty queue always has a committed agent, in all states of a run, exactly when no failing RegisterSend resets the flag with buffers queued meanwhile |
| `SendProtocol.WakeupStep` | ServerCore/Session.cpp:285-291 | a step leaves a queue unattended exactly when it is such a reset, which then is one entered from Send and not from under ProcessSend's lock |
| `SendProtocol.NoFailureNoLostWakeup` | ServerCore/Session.cpp:19-53 | without synchronous WSASend failures no wakeup is lost |
| `SendProtocol.LostWakeup` | ServerCore/Session.cpp:199-207 | two threads and one failed call are enough to leave a buffer queued on a connected session with nobody to send it |
| `SendProtocol.AttendedQueueDrains` | ServerCore/Session.cpp:273-292 | no deadlock: from every reachable attended state outside failure handling, everything queued can still reach WSASend without another Send call |
| `SendProtocol.InvIsInductive` | ServerCore/Session.cpp:19-53 | the protocol's invariant holds at the start and is kept by every step |
| `SendProtocol.KeepsOneOwner` | ServerCore/Session.cpp:42-51 | every step keeps one owner at most |
| `SendProtocol.KeepsLockHeld` | ServerCore/Lock.h:14-16 | every step keeps the recursive write lock with the one thread inside its section |
| `SendProtocol.KeepsQueueOk` | ServerCore/Session.cpp:285-291 | a registration always finds something queued, and one under the lock leaves nothing queued |
| `SendProtocol.KeepsConserved` | ServerCore/Session.cpp:173-186 | every step keeps the buffers: none lost, duplicated or reordered |
| `SendProtocol.KeepsBatchOk` | ServerCore/Session.cpp:273-275 | the event is empty between calls and holds something during them |
| `SendSession.Session.Send` | ServerCore/Session.cpp:19-53 | an uninterrupted Send is a run of the step machine, with its end stated for each case: not connected, nothing changes; token taken, only the queue grows; WSASend pending, the token stays taken, the event keeps the whole queue and that call is in flight; WSASend failed, event and token are free again and the call is lost; a null buffer stops the process exactly on a connected session |
| `SendSession.Session.RegisterSend` | ServerCore/Session.cpp:164-208 | an uninterrupted RegisterSend is a run of the step machine; it posts the event's buffers with the whole queue behind them, and event, token, connection and call in flight afterwards are stated for a pending and a failed call |
| `SendSession.Session.DrainQueue` | ServerCore/Session.cpp:173-186 | the loop moves the whole queue behind the event's buffers, in order |
| `SendSession.Session.Gather` | ServerCore/Session.cpp:188-196 | the scatter-gather list is the event's buffers in order |
| `SendSession.Session.FailSend` | ServerCore/Session.cpp:199-206 | after a synchronous failure the event is empty, the token free and the queue as it was, and only a lost connection disconnects |
| `SendSession.Session.ProcessSend` | ServerCore/Session.cpp:273-292 | an uninterrupted completion is a run of the step machine, with its end stated for each case: zero bytes disconnect; nothing queued frees the token; otherwise the queue is posted, and a pending call is in flight while a failed one frees event and token |
| `SendSession.Session.SendNext` | ServerCore/Session.cpp:285-291 | the lock section of a completion posts the whole queue or frees the token, with the state after a pending and after a failed call |
| `SendSession.Session.Disconnect` | ServerCore/Session.cpp:59-67 | only the call that turns the flag off goes on to RegisterDisconnect |
| `Rooms.TotalOrder` | GameServer/Room.cpp:8-63 | over any run of the room, two sessions that stay with one member each and stay connected are both sent exactly what the room says, in the same order |
| `Rooms.TotalOrderShared` | GameServer/Room.cpp:8-63 | a session that serves some member all along, however many and whoever they are, and stays connected is sent all the room says in the room's order, each message one or more times in a row |
| `Rooms.HearsStep` | GameServer/Room.cpp:8-63 | one step sends such a session exactly the message of that step, once |
| `Rooms.RoomView` | GameServer/Room.cpp:8-54 | over any run the members stay within the capacity, each under its own id, and the last room event each connected member was sent has the room's id and name, the present number of members as playerCount and the capacity as maxPlayers |
| `Rooms.KeepsUpToDate` | GameServer/Room.cpp:16-29 | every step keeps id, name, count and capacity in the members' last room event current |
| `Rooms.KeepsValid` | GameServer/Room.cpp:11-15 | every step keeps the capacity and the keys |
| `Rooms.EnterTells` | GameServer/Room.cpp:8-32 | after an enter the last message of every connected member, the new one included, is of kind 3 with that player's id and name and the room's id, name, new count and capacity |
| `Rooms.LeaveTells` | GameServer/Room.cpp:34-54 | after a leave the last message of everybody who stays connected and in, and of the one who left, is of kind 4 with that player's id and name and the room's id, name, new count and capacity |
| `Rooms.BroadcastTells` | GameServer/Room.cpp:56-63 | after a broadcast the last message of every connected member is that message |
| `Rooms.HostedGrows` | GameServer/Room.cpp:24-27 | the loop over the members serves a session once for each member that speaks through it |
| `Rooms.EventsTellRoster` | GameServer/Room.cpp:8-54 | the room events of any run, replayed from the members at its start, give exactly the members at its end with their names |
| `RoomObjects.Room.Enter` | GameServer/Room.cpp:8-32 | refused exactly when full; otherwise the member is in, room and sessions are as the model says whatever order the loop takes, and every connected member's last message tells of the player with the room's id, name, new count and capacity; the process stops exactly when the event does not fit a send buffer, and never with names of at most 5900 bytes together |
| `RoomObjects.Room.Leave` | GameServer/Room.cpp:34-54 | the member is out, and the last message of it and of all who stay tells so with the room's id, name, new count and capacity; the process stops exactly when the event does not fit a send buffer, and never with names of at most 5900 bytes together |
| `RoomObjects.Room.Broadcast` | GameServer/Room.cpp:56-63 | every member's session gets the message once for each member it serves, as its last message |
| `RoomObjects.Room.GetSummary` | GameServer/Room.cpp:65-72 | the summary shows id, name, count and capacity |
| `RoomObjects.Room.BuildEvent` | GameServer/Room.cpp:17-23 | the event carries kind, player id and name, and the room's id, name, count and capacity after the change; it fits a send buffer with names of at most 5900 bytes together |
| `RoomObjects.Room.SendToAll` | GameServer/Room.cpp:24-27 | the loop in any order delivers to every member's session |
| `RoomObjects.Room.ServeAll` | GameServer/Room.cpp:24-27 | after the loop every connected session in reach has grown by exactly one copy per member it serves |
| `RoomObjects.Room.TellLeaver` | GameServer/Room.cpp:47-49 | the leaving player's session is told while it lives |
| `RoomObjects.GameSession.Send` | ServerCore/Session.cpp:19-22 | a message to a session that is not connected is dropped |
| `Registry.IndexStaysConsistent` | GameServer/GameSessionManager.cpp:24-52 | in every state of a run below the id limit the two maps are each other's inverse, exactly when no object is removed under a name it was not registered with |
| `Registry.RemoveKeepsConsistent` | GameServer/GameSessionManager.cpp:42-52 | removing keeps the maps inverse exactly when the id is unknown or the name is the registered one |
| `Registry.RenamedRemovalLeavesName` | GameServer/GameSessionManager.cpp:42-52 | an object removed under a new name leaves its old one behind: it finds nothing and is taken for good |
| `Registry.AddKeepsConsistent` | GameServer/GameSessionManager.cpp:24-40 | adding keeps them inverse exactly when the name is taken or the counter names no entry |
| `Registry.RefinesRecords` | GameServer/GameSessionManager.cpp:24-74 | the two maps behave as one set of uniquely named records under add, remove and both lookups; a taken name changes nothing |
| `Registry.IdsAreFresh` | GameServer/GameSessionManager.h:34-35 | over any run ids are 1, 2, 3 and so on, removals notwithstanding; none repeats exactly up to 2^64 of them, and 0 and 2^64 - 1 appear exactly from the 2^64th and the one before it on |
| `Registry.IssuedInTurn` | GameServer/GameSessionManager.cpp:34-37 | the k-th id issued is the counter plus k modulo 2^64 |
| `Managers.GameSessionManager.AddPlayer` | GameServer/GameSessionManager.cpp:24-40 | the maps change as the index says; a null player or a taken name changes nothing; validity is kept below the id limit |
| `Managers.GameSessionManager.RemovePlayer` | GameServer/GameSessionManager.cpp:42-52 | the maps change as the index says for the id and the present name of the object |
| `Managers.GameSessionManager.PlayerLookupsAgree` | GameServer/GameSessionManager.cpp:54-74 | lookup by name finds the one registered player of that name, the same as by its id, and null exactly when there is none |
| `Managers.GameSessionManager.AddRoom` | GameServer/GameSessionManager.cpp:76-88 | as for players, with a new id for the room |
| `Managers.GameSessionManager.RemoveRoom` | GameServer/GameSessionManager.cpp:90-100 | as for players; a null room changes nothing |
| `Managers.GameSessionManager.RoomLookupsAgree` | GameServer/GameSessionManager.cpp:103-128 | both room lookups find the one registered room of a name |
| `Managers.GameSessionManager.RoomOfPlayer` | GameServer/GameSessionManager.cpp:130-139 | GetRoomFromPlayerId finds the room the player's own id names, and null for -1 or an unknown room |
| `Managers.GameSessionManager.GetAllRooms` | GameServer/GameSessionManager.cpp:141-151 | every registered room exactly once for its id |
| `Membership.MembershipAgreement` | GameServer/ClientPacketHandler.cpp:86-144 | all through a run, member maps and the players' own room ids agree exactly when every join was of a player in no room into a room with space, or into the room it was in |
| `Membership.AgreementStep` | GameServer/ClientPacketHandler.cpp:86-113 | exactly those joins keep the agreement; leaving, creating and registering always do |
| `Membership.LookupFindsRoom` | GameServer/GameSessionManager.cpp:130-139 | where they agree, GetRoomFromPlayerId finds the one room whose members include the player, and null exactly when there is none |
| `Membership.FullRoomBreaksAgreement` | GameServer/ClientPacketHandler.cpp:99-109 | a join refused with ROOM_FULL still sets the room id: a run of five requests ends in disagreement |
| `Membership.SecondRoomBreaksAgreement` | GameServer/ClientPacketHandler.cpp:99-109 | a player who joins a second room with space is a member of both and believes in one |
| `Membership.KeepsSane` | GameServer/GameSessionManager.cpp:24-88 | every step keeps room ids below the counter and between 1 and 2^64 - 2, rooms within capacity, and members registered |
| `Handlers.HandleJoinRoom` | GameServer/ClientPacketHandler.cpp:86-113 | a join is the membership step, and the room and every session in reach change as Enter says; a connected session's last message then is the reply: code 0 exactly when the room had space, and then the player is in it, 4 when it was full and nothing else in it changed, 3 when it is unknown; a null is followed exactly when room or player is unknown, and the process stops exactly when the event does not fit a send buffer |
| `Handlers.JoinRoom` | GameServer/ClientPacketHandler.cpp:99-109 | members, room id, messages and reply code (0 with space, 4 when full) of a join with known room and player |
| `Handlers.HandleLeaveRoom` | GameServer/ClientPacketHandler.cpp:131-144 | a leave is the membership step: the player is out of the room's members and its own room id is 2^64 - 1; false exactly when the player is in no room, and the process stops exactly when the event does not fit a send buffer |
| `Handlers.HandleChatRoom` | GameServer/ClientPacketHandler.cpp:114-129 | the chat message, as the packet has it, is the last one of every connected member of the player's room; a null is followed exactly when player or room is unknown |
| `Handlers.HandleSetNickname` | GameServer/ClientPacketHandler.cpp:14-45 | a free name registers a new player that owns the session and is told code 0 and its id; a taken one changes nothing, is told code 2 and prompted again; the manager stays valid until the id counter reaches its end |
| `Handlers.HandleCreateRoom` | GameServer/ClientPacketHandler.cpp:62-85 | a free name registers an empty room of sixteen under the next id and reports code 0 and all rooms; a taken one changes nothing and reports code 2; the manager stays valid until the id counter reaches its end |
| `Handlers.HandleRequestRoomList` | GameServer/ClientPacketHandler.cpp:46-61 | the reply shows every registered room once, as it is, and nothing else changes |
| `Handlers.ListRooms` | GameServer/ClientPacketHandler.cpp:49-56 | the list shows every registered room once, as it is |
| `Lifecycle.SessionLifecycle` | ServerCore/Session.cpp:210-243 | in every run RegisterDisconnect runs at most once for a session and the counter is the size of the set; the erase assertion fails exactly when a disconnect completes before its session's AddSession |
| `Lifecycle.SetHoldsTheLive` | ServerCore/Service.cpp:43-53 | over any run that has not crashed the set holds exactly the sessions that were added and whose disconnect has not completed |
| `Lifecycle.FirstDisconnectRegisters` | ServerCore/Session.cpp:59-67 | over any run that has not crashed RegisterDisconnect runs for a session exactly when some Disconnect call comes behind its connecting |
| `Lifecycle.AssertionHolds` | ServerCore/Service.cpp:49-53 | while no Disconnect comes between the store to the flag and AddSession, the assertion never fails |
| `Lifecycle.EarlyDisconnectCrashes` | ServerCore/Session.cpp:225-228 | one Disconnect between the two is enough to make it fail |
| `Lifecycle.KeepsInv` | ServerCore/Session.cpp:59-67 | every step keeps the bookkeeping, and fails the assertion exactly when it completes a disconnect ahead of AddSession |
| `Lifecycle.Service.AddSession` | ServerCore/Service.cpp:43-47 | the session joins the set and the counter grows by one, whatever the set held; so the counter stays its size exactly when the session is new to it |
| `Lifecycle.Service.ReleaseSession` | ServerCore/Service.cpp:49-53 | succeeds exactly for a session in the set, takes out that one and one off the counter, and changes nothing otherwise |

## Left out

- The other generated messages: they repeat the shapes of the four modelled ones, strings, numbers, enums, optional and repeated submessages.
- Arenas, reflection, descriptors, swap and destructors of the generated code, and parsing from anything but one contiguous input.
- Sockets, addresses, completion ports, the thread pool and the main loops; of them only the kernel's answers remain.
- The lock's spinning, timeouts and deadlock profiler, the memory and object pools, and reference counts: mutual exclusion and live objects are assumed.
- The listener, RegisterConnect and the client's side of connecting: a session connects once, successfully or not.
- `RegisterRecv`: the next receive is any further call of ProcessRecv with at most the free space.
- The manager's own set of sessions and the service-wide broadcasts, which are loops like the room's.
- The bytes of replies and chat messages, and so the sizes at which one of those stops the process.
- Dispatch from a packet id to its handler; packets shorter than a header, which the loop can hand on, are not parsed in the model.
- Rooms.TotalOrder: speaks of sessions with one member each; `Rooms.TotalOrderShared` covers the others.
- EndToEnd.MembersGetOneOrder: speaks of sessions with one member each and no failed call, where both sockets carry the sequence without a gap.
- SendBuffers.SendBufferManager.MakeSendBuffer: covers the template for S_ROOM_EVENT, because the other messages are not modelled.
- SendBuffers.SendBufferManager.Fill: likewise.
- Utf8.ValidUtf8IsEncoding: takes the table-driven scanner as the grammar it accepts; the tables are not part of this model.
- Lifecycle.Service.AddSession: does not model the 32-bit width of the counter, because it stays the size of a set of live sessions.
- SendProtocol.AttendedQueueDrains: states that draining is possible, not that a scheduler brings it about.
- Console client, its commands, and the packet generator.
