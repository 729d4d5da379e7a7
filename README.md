# RustCanvas connection core, in Dafny

This project models four parts of RustCanvas and proves properties about them:

- **The WebSocket connection registry** (`crates/appstate/src/websocket.rs`). Ids are handed out from a counter that starts at 1. Each connection gets a bounded message channel. The registry supports register, unregister, lookup, count, listing and broadcast. The registry is a `class` holding a map from ids to channel objects. Each channel is a `class` with a queue of at most 100 messages and a closed flag.
- **The per-connection loops of the web server** (`crates/webserver/src/lib.rs`):
  - the bind address `parse_config` builds;
  - registration and clean-up of a connection;
  - the outbound pump, which stops at the first failed write;
  - the heartbeat, which sends a ping every 30 seconds;
  - the inbound consumer, which answers pings, tracks the last pong, stops on close or error, and applies a 90-second liveness timeout.

  Each loop is a `method` over the sequence of things it receives (channel messages, ticks, frames with their arrival time). Each is proved against a function of that sequence.
- **The protobuf JavaScript client generator** (`crates/protocol/build.rs`):
  - how each field kind is mapped to a JavaScript type and a wire type;
  - the constructor, encode and decode lines generated for each field;
  - the embedded `ProtobufWriter` and `ProtobufReader`.

  JavaScript numbers are modelled with their 32-bit bitwise semantics: `|`, `<<` and `>>>` go through ToInt32/ToUint32. Writer and reader are classes over a byte buffer. The generated classes' `encode` and `decode` are modelled as functions over the generated lines, and the round trip is proved on them.
- **The key-choice prompts** (`crates/utils/src/input.rs`):
  - building the accepted list, case-doubled when the prompt is not case-sensitive;
  - the byte-at-a-time `choice` loop;
  - the `crossterm_choice` loop over terminal events, with raw mode turned on and off around it.

Inputs from outside the program are parameters of the model:
- the keyboard bytes and terminal events;
- socket frames, arrival times and send outcomes;
- heartbeat ticks and the running flag;
- whether raw mode could be enabled or disabled.

## Where the source's behaviour differs from what its comments suggest

In these places the model follows what the code does:
- **Broadcast locking.** `broadcast` holds the registry's read lock while it sends to each connection in turn (`websocket.rs:131-137`). In the model, broadcast visits every registered id once and appends at most one message per visit.
- **Liveness timeout.** The timeout is checked only after a frame arrives (`lib.rs:321-325`), not on a timer. The model has both versions (see Findings).
- **Full channel.** A `send` on a full channel waits in the source (`websocket.rs:36-38`, over a channel of capacity 100 made at `lib.rs:125`). In the model it returns `WouldWait` and leaves the queue unchanged, so "no more than capacity" is an invariant.

## Model

| member | source | states |
|---|---|---|
| Registry.MessageSender.constructor | crates/appstate/src/websocket.rs:22-33 | a new channel is open, empty and has the given capacity |
| Registry.MessageSender.Send | crates/appstate/src/websocket.rs:36-38 | on a closed channel the send fails and nothing changes; with room, the message is appended at the end; when full, the queue is unchanged; the capacity bound is kept |
| Registry.MessageSender.SendText | crates/appstate/src/websocket.rs:60-65 | as Send, with a text message holding exactly the given string |
| Registry.MessageSender.SendBinary | crates/appstate/src/websocket.rs:74-79 | as Send, with a binary message holding exactly the given bytes |
| Registry.MessageSender.Hangup | crates/webserver/src/lib.rs:113-118 | once the connection's receiver is dropped the channel is closed and its queue kept |
| Registry.ConnectionRegistry.constructor | crates/appstate/src/websocket.rs:96-101 | an empty registry whose next id is 1 |
| Registry.ConnectionRegistry.Register | crates/appstate/src/websocket.rs:105-113 | the id returned is the old counter, which then goes up by one; it is at least 1, larger than every id in use and not in use; exactly that entry is added |
| Registry.ConnectionRegistry.Unregister | crates/appstate/src/websocket.rs:117-120 | returns true exactly when the id was registered; the id is removed and nothing else; the counter is unchanged |
| Registry.ConnectionRegistry.Get | crates/appstate/src/websocket.rs:124-127 | Some exactly when the id is registered, and then its own channel |
| Registry.ConnectionRegistry.Count | crates/appstate/src/websocket.rs:141-144 | the number of registered ids |
| Registry.ConnectionRegistry.AllIds | crates/appstate/src/websocket.rs:148-151 | every registered id exactly once, and nothing else |
| Registry.ConnectionRegistry.Broadcast | crates/appstate/src/websocket.rs:131-137 | every channel's closed flag is unchanged; what it held before is kept as a prefix; only the broadcast message is appended, at most once per id it is registered under; a closed channel is untouched; an open channel with room gets one copy per id; the capacity bound is kept |
| Registry.ConnectionRegistry.BroadcastText | crates/appstate/src/websocket.rs:162-169 | Broadcast of the text message |
| Registry.ConnectionRegistry.BroadcastBinary | crates/appstate/src/websocket.rs:179-186 | Broadcast of the binary message |
| Registry.Deliver | crates/appstate/src/websocket.rs:133-136 | one step of the broadcast loop: after sending to one more id, all the ids visited so far have been delivered to |
| Registry.SendDelivers | crates/appstate/src/websocket.rs:133-136 | a send of the broadcast message keeps the delivery bound with one more id counted |
| Registry.FanoutGrows | crates/appstate/src/websocket.rs:133-136 | visiting an id adds exactly that id to its channel's count and leaves other channels' counts alone |
| Registry.OneIdPerSender | crates/webserver/src/lib.rs:123-132 | when every connection has its own channel, each channel is reached through exactly one id |
| Registry.DeliveredOnce | crates/appstate/src/websocket.rs:131-137 | a channel registered once gets exactly one copy when open with room, and none when closed |
| Session.DecimalString | crates/webserver/src/lib.rs:64 | the decimal digits of a port, with no leading zero |
| Session.ParseDecimal | crates/webserver/src/lib.rs:64 | a string parses as a number exactly when it is a non-empty run of digits |
| Session.DecimalRoundTrip | crates/webserver/src/lib.rs:64 | the digits written for a number parse back to that number |
| Session.LastIndexOf | crates/webserver/src/lib.rs:64 | the position of the last occurrence of a character, or none when it does not occur |
| Session.SplitAddress | crates/webserver/src/lib.rs:64 | an address splits at its last colon into a host and a colon-free port part, and joins back |
| Session.ParseConfig | crates/webserver/src/lib.rs:57-72 | the display string differs from the bind string only for the interfaces 0.0.0.0 and 127.0.0.1 |
| Session.SplitJoined | crates/webserver/src/lib.rs:64 | host, colon, digits splits back into that host and those digits |
| Session.ParseConfigParts | crates/webserver/src/lib.rs:57-72 | both strings are an interface, a colon and the port's digits, and the port parses back; the bind string has the configured interface; the display string has `*` for 0.0.0.0, `localhost` for 127.0.0.1, and otherwise the interface |
| Session.RegisterConnection | crates/webserver/src/lib.rs:123-132 | a fresh, empty, open channel of capacity 100 is registered under the next id |
| Session.HandleClient | crates/webserver/src/lib.rs:89-98 | a connection is registered, its session ends and it is unregistered; the registry is left with the same connections and the counter one higher |
| Session.Messages | crates/webserver/src/lib.rs:211 | the messages of the channel, in the order they are received |
| Session.ProcessOutgoing | crates/webserver/src/lib.rs:206-221 | the messages written are a prefix of those received, each of them written successfully; the loop fails exactly when it stops early, and then at a write that failed |
| Session.SendHeartbeats | crates/webserver/src/lib.rs:225-252 | only empty pings are sent, one per tick on which the server runs, the connection is registered and the ping is accepted; the loop ends at the first tick that fails, and the reason returned says which test failed |
| Session.ProcessIncoming | crates/webserver/src/lib.rs:256-329 | the loop stops at the first frame that ends it, as EventEnd says with the last pong time over the frames before it; otherwise it reads the whole stream; the replies are exactly the pongs for the frames it consumed |
| Session.PrefixStep | crates/webserver/src/lib.rs:264-325 | one more frame moves the last pong time and the replies as that frame says |
| Session.FramesThatKeepTheLoop | crates/webserver/src/lib.rs:266-318 | a pong never ends the loop; text, binary and answered pings end it only by the timeout; close ends it as closed by the peer; a read error ends it as a transport error |
| Session.NoPongKeepsStart | crates/webserver/src/lib.rs:261 | without a pong the last pong time stays at the start |
| Session.LastPongIsLatestPong | crates/webserver/src/lib.rs:310-314 | the last pong time is the arrival time of the latest pong |
| Session.RepliesAnswerPings | crates/webserver/src/lib.rs:302-309 | every reply is a pong carrying the payload of a ping whose reply was queued |
| Session.OneReplyPerPing | crates/webserver/src/lib.rs:302-309 | there are exactly as many replies as pings whose reply was queued |
| Session.AsWrittenSilenceNeverEnds | crates/webserver/src/lib.rs:321-325 | as written, any length of silence never ends the loop |
| Session.WatchdogEndsSilence | crates/webserver/src/lib.rs:262 | with the timeout also checked when no frame arrives, a silence more than 90 seconds after the last pong ends the loop as timed out |
| Choice.Doubled | crates/utils/src/input.rs:40-49 | the case-insensitive list has two characters per choice |
| Choice.BuildChoices | crates/utils/src/input.rs:40-49 | the loop builds the choices themselves when case-sensitive, else the case-doubled list |
| Choice.DoubledEntries | crates/utils/src/input.rs:43-46 | entries 2i and 2i+1 of the doubled list are the lowercase and uppercase forms of choice i |
| Choice.DoubledMembers | crates/utils/src/input.rs:40-49 | a character is in the doubled list exactly when it is a case form of some choice |
| Choice.AcceptsMeaning | crates/utils/src/input.rs:59-62 | case-sensitive, a key is accepted exactly when it is one of the choices; otherwise exactly when it equals one of them up to case |
| Choice.ChooseKey | crates/utils/src/input.rs:32-68 | returns the first accepted byte read, as pressed; every earlier read was not a byte or was not accepted; when the reads run out there is no result |
| Choice.CrosstermChoice | crates/utils/src/input.rs:76-142 | when raw mode cannot be enabled, an error is returned with nothing read; otherwise the loop stops at the first event that decides; key releases, other events and unaccepted keys never decide; the result and the raw-mode state are those that decision gives |
| Choice.AsWrittenReadErrorLeavesRawMode | crates/utils/src/input.rs:109 | as written, a failed event read returns an error with the terminal still in raw mode |
| Choice.CorrectedRestoresTerminal | crates/utils/src/input.rs:136-141 | with the loop left on a read error, raw mode is always turned off when disabling succeeds; a character is picked exactly when a key decided and disabling succeeded |
| JsNumbers.ToUint32 | crates/protocol/build.rs:397-403 | the 32-bit pattern of a number is below 2^32 and is the number itself when it is in range |
| JsNumbers.ToInt32 | crates/protocol/build.rs:429-441 | the signed reading of the 32-bit pattern lies in the int32 range, has the same pattern, and is x or x - 2^32 for patterns of x below 2^32 |
| JsNumbers.BitOrHigh | crates/protocol/build.rs:434 | or-ing a multiple of 2^k into a number whose low part is below 2^k leaves the low part and ors the high parts |
| JsNumbers.BitOrDisjoint | crates/protocol/build.rs:434 | bits that do not overlap: the or is the sum |
| ProtoRuntime.ContinuationByte | crates/protocol/build.rs:399 | `(value & 0xFF) \| 0x80` is 0x80 plus the low seven bits of the 32-bit pattern |
| ProtoRuntime.LowByte | crates/protocol/build.rs:402 | `value & 0xFF` is the low byte of the 32-bit pattern |
| ProtoRuntime.DropGroup | crates/protocol/build.rs:400 | `value >>> 7` is the unsigned pattern without its low seven bits |
| ProtoRuntime.MakeKey | crates/protocol/build.rs:406 | the key of writeTag is the 32-bit `(fieldNumber << 3) \| wireType` |
| ProtoRuntime.AccumulateGroup | crates/protocol/build.rs:434 | one step of readVarint ors the seven payload bits of the byte in at the shift, in 32-bit signed form |
| ProtoRuntime.SplitTag | crates/protocol/build.rs:443-449 | readTag's field number and wire type are the unsigned key divided by 8 and its remainder |
| ProtoRuntime.SetContinuationBit | crates/protocol/build.rs:399 | or-ing 0x80 into a byte keeps its low seven bits and sets the top bit |
| ProtoRuntime.ProtobufWriter.constructor | crates/protocol/build.rs:393-395 | a new writer's buffer is empty |
| ProtoRuntime.ProtobufWriter.WriteVarint | crates/protocol/build.rs:397-403 | the loop appends exactly VarintBytes(value) |
| ProtoRuntime.ProtobufWriter.WriteTag | crates/protocol/build.rs:405-407 | appends the varint of the key |
| ProtoRuntime.ProtobufWriter.WriteString | crates/protocol/build.rs:409-416 | appends nothing for an empty or absent value; otherwise the key, the length and the bytes |
| ProtoRuntime.ProtobufReader.constructor | crates/protocol/build.rs:424-427 | a reader over the given buffer, at position 0 |
| ProtoRuntime.ProtobufReader.ReadVarint | crates/protocol/build.rs:429-441 | the loop returns the value and moves to the position ReadVarintAt gives, or throws when the buffer ends inside the varint |
| ProtoRuntime.ProtobufReader.ReadTag | crates/protocol/build.rs:443-449 | the tag and position of ReadTagAt, or a throw |
| ProtoRuntime.ProtobufReader.ReadString | crates/protocol/build.rs:451-456 | the bytes and the position of ReadStringAt, where a slice past the end is cut short and the position still moves by the length |
| ProtoRuntime.ProtobufReader.ReadStringChecked | crates/protocol/build.rs:451-456 | as ReadString, but a negative length or one that passes the end of the buffer throws |
| ProtoRuntime.ProtobufReader.SkipField | crates/protocol/build.rs:609-611 | succeeds exactly when the payload of the wire type can be skipped, and then moves past it |
| ProtoWire.VarintBytes | crates/protocol/build.rs:397-403 | writeVarint writes at least one byte |
| ProtoWire.StringFieldBytes | crates/protocol/build.rs:409-416 | writeString writes nothing unless the value is a non-empty string |
| ProtoWire.ReadsAdvance | crates/protocol/build.rs:429-456 | every read that succeeds, in the checked decoder, moves the position forward within the buffer |
| ProtoWire.VarintBytesAreGroups | crates/protocol/build.rs:397-403 | below 2^32, writeVarint writes the base-128 groups of the number, low group first |
| ProtoWire.GroupsContinuationBits | crates/protocol/build.rs:398-402 | every group but the last has the continuation bit, and the last one does not |
| ProtoWire.GroupsLength | crates/protocol/build.rs:397-403 | a number below 2^28 takes at most four bytes and one below 2^35 at most five |
| ProtoWire.ReadVarintFromGroups | crates/protocol/build.rs:429-441 | reading the groups of a number from any accumulated state gives the 32-bit signed total and the position after them |
| ProtoWire.VarintRoundTrip | crates/protocol/build.rs:397-441 | readVarint gives back what writeVarint wrote for any number below 2^32, as an int32, and moves past it |
| ProtoWire.CorrectedVarintRoundTrip | crates/protocol/build.rs:397-441 | with `value >>>= 0` before the loop, readVarint gives back every signed 32-bit number writeVarint wrote, negative ones included |
| ProtoWire.ReadVarintUnterminated | crates/protocol/build.rs:440 | readVarint throws when every remaining byte carries the continuation bit |
| ProtoWire.KeySmall | crates/protocol/build.rs:406 | below 2^28 the key is 8 times the field number plus the wire type |
| ProtoWire.TagRoundTrip | crates/protocol/build.rs:405-449 | readTag gives back the field number and wire type writeTag wrote, for field numbers below 2^28 |
| ProtoWire.ReadStringInRange | crates/protocol/build.rs:451-456 | after a length that fits, readString returns exactly that many bytes and moves past them |
| ProtoWire.StringRoundTrip | crates/protocol/build.rs:409-456 | readString gives back the bytes writeString wrote after the key, and the checked read agrees with it |
| ProtoWire.StringFieldRoundTrip | crates/protocol/build.rs:409-456 | a string field written by writeString reads back as its tag and then its bytes, ending where it ends |
| ProtoWire.VarintFieldRoundTrip | crates/protocol/build.rs:397-449 | a key and a varint read back as the tag and then the value |
| ProtoCodegen.GenerateMessageClass | crates/protocol/build.rs:531-626 | for each field, in order, the generated class has one constructor line, one encode line and one decode case, built from that field's tuple |
| ProtoCodegen.GenerateProtobufClientCode | crates/protocol/build.rs:326-529 | there is one class, one registration, one window export and one name per message, in pool order, each built from that message's fields |
| ProtoCodegen.KindTypesShape | crates/protocol/build.rs:345-360 | the JavaScript type is one of four; object exactly for messages; boolean exactly for bool; number exactly for the varint kinds other than bool; the wire type is "string" exactly when it is not a varint type |
| ProtoCodegen.WriterReaderAgree | crates/protocol/build.rs:563-584 | for every wire type, the writer, the wire-type constant and the reader are all varint or all length-delimited |
| ProtoCodegen.GeneratedClassAgrees | crates/protocol/build.rs:543-585 | in a generated class, encode compares each field against the default its constructor assigns, and decode accepts, under the same field number, the wire type its writer writes, using the matching reader |
| ProtoCodegen.WireTypesAgainstProtobuf | crates/protocol/build.rs:345-360 | the generated wire type is the Protocol Buffers one except for fixed32, sfixed32, fixed64 and sfixed64, which are written as varints, and float and double, which are written as length-delimited strings |
| ProtoClient.RunEncodeLine | crates/protocol/build.rs:555 | one generated encode line appends the bytes for that field's value |
| ProtoClient.Encode | crates/protocol/build.rs:596-599 | encode produces the bytes of all encode lines, in field order |
| ProtoClient.CorrectedClass | crates/protocol/build.rs:554-569 | the corrected class keeps the name, constructor and decode cases, and fixes every encode line |
| ProtoClient.FindCase | crates/protocol/build.rs:608-609 | the switch finds a case of that field number, or there is none |
| ProtoClient.DecodeStep | crates/protocol/build.rs:606-613 | each step of the checked decoder moves forward |
| ProtoClient.DecodeFrom | crates/protocol/build.rs:602-616 | the checked decoder always finishes |
| ProtoClient.DecodeAlong | crates/protocol/build.rs:606-613 | a chain of steps that ends at the end of the buffer decodes to the last message of the chain |
| ProtoClient.DecodeMessage | crates/protocol/build.rs:602-616 | the fixed decode loop (checked string read, unknown payloads skipped) computes Decode |
| ProtoClient.DecodeAsWrittenFrom | crates/protocol/build.rs:602-616 | the loop as written, under a step bound: with no byte left it finishes with the message it holds; Unfinished when the bound runs out |
| ProtoClient.DecodeAsWrittenMoreFuel | crates/protocol/build.rs:602-616 | a result the loop as written reaches within a step bound is its result for every larger bound, so Unfinished only ever means the bound ran out |
| ProtoRoundTrip.SettingLines | crates/protocol/build.rs:542-588 | each line of the class is built from the field at the same position |
| ProtoRoundTrip.CaseNumbersDistinct | crates/protocol/build.rs:571-585 | the decode cases of a message with distinct field numbers have distinct numbers |
| ProtoRoundTrip.StringFieldStep | crates/protocol/build.rs:572 | a string field written by the generated class is read into the field it came from |
| ProtoRoundTrip.VarintFieldStep | crates/protocol/build.rs:572 | a varint field written by the corrected encode line is read into the field it came from |
| ProtoRoundTrip.DecodesToPartial | crates/protocol/build.rs:596-616 | decoding the encoding gives the default message updated with each field that was written |
| ProtoRoundTrip.MessageRoundTrip | crates/protocol/build.rs:531-626 | with the corrected encode lines, decoding an encoded message gives the message back, with booleans read as numbers; the decoder as written agrees with the checked one |
| ProtoFindings.AsWrittenVarintIgnoresValue | crates/protocol/build.rs:555 | as written, every varint field writes its field number and not its value |
| ProtoFindings.AsWrittenEncodingLosesValue | crates/protocol/build.rs:555 | a number field set to 5 encodes as the single byte 1, which decodes to 0 |
| ProtoFindings.CorrectedEncodingKeepsValue | crates/protocol/build.rs:554-569 | with the corrected encode line, the same message decodes back to 5 |
| ProtoFindings.NegativeLengthBytes | crates/protocol/build.rs:397-403 | the varint of 2^32 - 6 is FA FF FF FF 0F |
| ProtoFindings.BackwardsLength | crates/protocol/build.rs:451-456 | the length in 0A FA FF FF FF 0F reads as -6 |
| ProtoFindings.AsWrittenNeverFinishes | crates/protocol/build.rs:602-616 | as written, decoding that input moves back to position 0 and never finishes |
| ProtoFindings.CorrectedRejectsNegativeLength | crates/protocol/build.rs:451-456 | with the length check, decoding that input throws |
| ProtoFindings.AsWrittenReadsUnknownPayload | crates/protocol/build.rs:609-611 | as written, for 12 02 08 05 the bytes of the unknown field 2 are read as tags, and field 1 becomes 5 |
| ProtoFindings.CorrectedSkipsUnknownPayload | crates/protocol/build.rs:609-611 | skipping the unknown field leaves field 1 at its default of 0 |
| ProtoFindings.TruncatedLength | crates/protocol/build.rs:429-449 | in 0A 05 41 the tag is string field 1 and the length is 5, with one byte after it |
| ProtoFindings.AsWrittenAcceptsTruncated | crates/protocol/build.rs:451-456 | as written, 0A 05 41 decodes without error to a string field holding the one byte 41 |
| ProtoFindings.CorrectedRejectsTruncated | crates/protocol/build.rs:451-456 | with the end-of-buffer check, decoding that input throws |
| ProtoFindings.AsWrittenNegativeNumberLost | crates/protocol/build.rs:397-403 | with the key written, a number field set to -1 encodes as 08 FF, and decoding that throws |
| ProtoFindings.CorrectedNegativeNumberKept | crates/protocol/build.rs:397-441 | with `value >>>= 0` first, -1 is written as FF FF FF FF 0F and read back as -1 |
| ProtoFindings.CorrectedSkipsString | crates/protocol/build.rs:609-611 | a length-delimited field with no case is skipped whole and the message is unchanged |
| ProtoFindings.CorrectedSkipsVarint | crates/protocol/build.rs:609-611 | a varint field with no case is skipped whole and the message is unchanged |

## Left out

- Tasks are left out: tokio tasks, `select!`, `abort`, locks and mutexes (`lib.rs:134-203`). Each loop is modelled on its own over a finite sequence of inputs. Running out of input means the stream has ended, or the loop is still waiting.
- `Registry.MessageSender.Send`: a send on a full channel waits in the source. Here it returns `WouldWait` with the queue unchanged, because the model has no blocking. The same holds for `Broadcast`, whose contract therefore bounds the copies delivered rather than requiring one per id.
- Only the interplay of Send and the socket is modelled. The WebSocket frames, the axum router, the static file handlers and the logging are not part of this model.
- `Session.ProcessIncoming` covers binary frames only as frames that keep the loop going. The `protocol::get_proto_type` type detection they trigger is debug logging and is not part of this model.
- `Session.SendHeartbeats`: the 30-second timer is not modelled. Each element of the input is one tick.
- `Session.ParseConfig`: the configuration lock and the TCP bind are left out. The port is a 16-bit number, as in the configuration type.
- `Choice.ChooseKey`: the prompt printing, stdout flushing and the waiting when the input runs out are left out. A read is a byte or nothing.
- `Choice.ToLower`: case mapping is ASCII only. Rust's Unicode `to_lowercase`/`to_uppercase` also map non-ASCII letters and can give more than one character. Those characters are not modelled.
- JavaScript strings are held as their UTF-8 bytes. `TextEncoder`/`TextDecoder` and invalid UTF-8 are not modelled, so a string field round-trips as bytes.
- Reading a descriptor set with `prost_reflect` is replaced by a list of messages with typed fields. The template text (headers, `ProtoClient`, `toJSON`, exports) is modelled only as the lists it is assembled from.
- `ProtoWire.VarintBytes`: numbers that are not integers are not modelled, since the generated classes only pass integers. A negative number skips the loop and is written as its low byte alone (`build.rs:398`, `build.rs:402`); Findings has the consequence.
- `ProtoWire.TagRoundTrip`: field numbers at or above 2^28 overflow the 32-bit key and do not round-trip. The round trip is proved below that bound.
- `ProtoRoundTrip.MessageRoundTrip`: a boolean is written as the varint 0 or 1 and read back as the number 0 or 1, so the round trip returns the message normalised that way. Values at or above 2^31 come back as negative int32 numbers and are excluded. Negative numbers are excluded too: writeVarint writes only their low byte, and readVarint then reads past it or throws (Findings). Message-typed fields are proved only for the value `null`, which writes nothing: an object is also written as nothing, because `writeString` tests `value.length` (`build.rs:410`), which an object does not have.
- `Registry.ConnectionRegistry.Register`: the id counter is an unbounded natural number. In the source it is a `u64` (`websocket.rs:87`, `websocket.rs:106-108`), so registering past 2^64 - 1 ids would overflow. That is out of reach in practice and is not modelled.
- `ProtoClient.DecodeAsWrittenFrom`: the as-written decoder can loop forever (Findings). It is modelled with a step bound, and `Unfinished` stands for "does not end within the bound".

## Findings

| source | as written | input that shows it | evidently intended | confidence | as-written member | corrected member |
|---|---|---|---|---|---|---|
| crates/protocol/build.rs:555 | the encode line for a varint field passes the field number to `writeVarint` and never the value, and writes no tag | a message with number field 1 set to 5 encodes as `01` and decodes back to 0 | write the tag with wire type 0, then the value | high, not executed | ProtoFindings.AsWrittenEncodingLosesValue | ProtoFindings.CorrectedEncodingKeepsValue |
| crates/protocol/build.rs:451-456 | `readString` accepts a negative length from a varint at or above 2^31 and moves the position backwards | `0A FA FF FF FF 0F` for a string field 1 | reject a negative length | high, not executed | ProtoFindings.AsWrittenNeverFinishes | ProtoFindings.CorrectedRejectsNegativeLength |
| crates/protocol/build.rs:451-456 | `readString` does not check the length against the end of the buffer: `slice` cuts the string short and the position moves past the end, so a truncated message decodes without error | `0A 05 41` for a string field 1 (length 5, one byte present) decodes to the one byte `41` | throw when the length passes the end of the buffer | high, not executed | ProtoFindings.AsWrittenAcceptsTruncated | ProtoFindings.CorrectedRejectsTruncated |
| crates/protocol/build.rs:397-403 | `writeVarint` skips its loop for a negative number and pushes only its low byte, which carries the continuation bit | a number field set to -1 encodes, after its key, as `FF` alone, and decoding it throws | write the unsigned 32-bit pattern (`value >>>= 0` before the loop), five bytes for a negative int32 | high, not executed | ProtoFindings.AsWrittenNegativeNumberLost | ProtoFindings.CorrectedNegativeNumberKept |
| crates/protocol/build.rs:609-611 | the `default:` case ("skip unknown fields") does not skip the payload, so its bytes are read as tags | `12 02 08 05` (unknown field 2 holding `08 05`) sets field 1 to 5 | skip the payload according to the wire type | high, not executed | ProtoFindings.AsWrittenReadsUnknownPayload | ProtoFindings.CorrectedSkipsUnknownPayload |
| crates/utils/src/input.rs:109 | `event::read()?` returns the error at once, skipping `disable_raw_mode` at line 139 | a failed terminal read while raw mode is on | leave the loop and turn raw mode off before returning the error | high, not executed | Choice.AsWrittenReadErrorLeavesRawMode | Choice.CorrectedRestoresTerminal |
| crates/webserver/src/lib.rs:321-325 | the 90-second liveness timeout is tested only after a frame arrives | a client that goes silent and sends nothing for any length of time | end the connection once 90 seconds pass after the last pong, even with no frames | medium, not executed | Session.AsWrittenSilenceNeverEnds | Session.WatchdogEndsSilence |
