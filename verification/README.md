# SoundStream wire core in Dafny

This project models the two sequential engines at the centre of the
SoundStream wire protocol, plus the song-key helper the application uses to
name songs across devices.

- **ConnectionWriter** (`connection_writer.dfy`) is the send scheduler. It
  is a min-first priority queue of outbound messages, each scored
  `messageNo * multiplier`. The multiplier is 100 for a TransferSongMessage
  and 1 for every other message.
  - `cancel` only records a message number.
  - `writeOne` first folds the recorded cancellations in: each cancelled
    entry's remaining bytes become one serialized Cancelled packet.
  - It then writes at most one send packet of the lowest-scored entry.
  - If bytes remain, the entry is re-queued. Otherwise its future is marked
    finished.
  - The queue is a map from message number to entry. A run of writes is the
    function `Run`.
- **Messenger** (`messenger.dfy`) is the receive-side packet handler and
  the allocator of outbound message numbers.
  - A decoded packet is discarded if its message was cancelled. It becomes a
    cancel record if its Cancelled bit is set. Otherwise it is appended to
    its message's reassembly buffer.
  - A buffer that holds a whole message moves that message to the received
    list.
  - Cancel records expire after a TTL in minutes.
- **SongMetadataUtils** (`song_metadata_utils.dfy`) builds the unique key of
  a song: the device address with its colons removed, `_`, then the decimal
  song id.
- **Wire** (`wire.dfy`) holds the shared vocabulary: bytes, decoded
  packets, Java `int` bounds and wrap-around, and the type of the packet
  encoder.

### Codecs, streams and the clock

The packet codec, the message codec and the per-message reassembly stream
are not part of this model. Their byte layouts are never invented. Instead
they are passed in as function values:

- `PacketEncoder` is a parameter. The scheduler assumes only that every
  frame it produces is non-empty (`NonEmptyFrames`).
- `PacketParser` cuts a packet off a byte buffer, or reports `Incomplete`.
  It is assumed to always consume bytes (`Consumes`).
- `RecvStream` supplies two functions: one says whether the bytes so far
  are a complete message, and one decodes them.

The outbound stream of a queued message (WireSendInputStream) is different:
it is modelled concretely, as the sequence of bytes not yet written. A read
therefore always returns `min(packetSize, remaining)` bytes, and the
remaining count is always exact (see "## Left out").

The clock (`System.currentTimeMillis`) is the parameter `now`, in integer
milliseconds.

### Behaviour of the code worth knowing

- **The batch flag.** processAndConsumePackets returns the completion
  result of the last data packet it handled that was not discarded
  (Messenger.java:187, 224), not whether any message was delivered. It can
  be `false` even when an earlier packet in the same batch completed a
  message. `Messenger.BatchFlagIsLastCompletion` states the rule for all
  batches, and `Messenger.BatchFlagIsLastDataPacket` exhibits such a batch.
- **Message numbers wrap.** The counter is a Java `int` (Messenger.java:86,
  123), so after `INT_MAX` it hands out `INT_MIN`
  (`Messenger.AllocationWrapsAtIntMax`). Numbers are distinct for up to
  2^32 allocations and strictly increasing only until the wrap.
- **No payload for a cancel packet.** On a Cancelled packet the code
  creates the transfer and then removes it, without appending that
  packet's payload (Messenger.java:211-221).

## Model

| member | source | states |
|---|---|---|
| ConnectionWriter.NewWriter | SoundStream/src/com/thelastcrusade/soundstream/net/ConnectionWriter.java:100-104 | A new writer has an empty queue, no pending cancels, nothing finished, and an out buffer of one send packet (4096 bytes). |
| ConnectionWriter.ComputeMessageScore | SoundStream/src/com/thelastcrusade/soundstream/net/ConnectionWriter.java:144-154 | A song transfer scores 100 times its number and any other message scores its number; for a legal number the score is a non-negative Java int. |
| ConnectionWriter.ScoreFitsInt | SoundStream/src/com/thelastcrusade/soundstream/net/ConnectionWriter.java:144-154 | For message numbers up to INT_MAX/100, both kinds of score lie in 0..INT_MAX, so neither the product nor the comparator's difference overflows. |
| ConnectionWriter.ScoreMonotoneWithinKind | SoundStream/src/com/thelastcrusade/soundstream/net/ConnectionWriter.java:144-154 | Within one kind of message, a lower message number scores strictly lower, and conversely. |
| ConnectionWriter.ControlJumpsTransferIff | SoundStream/src/com/thelastcrusade/soundstream/net/ConnectionWriter.java:54-66 | A control message sorts before a song transfer if and only if its number is below 100 times the transfer's number. |
| ConnectionWriter.CanWrite | SoundStream/src/com/thelastcrusade/soundstream/net/ConnectionWriter.java:156-158 | True exactly when some message is queued; pending cancels alone do not count. |
| ConnectionWriter.Enqueue | SoundStream/src/com/thelastcrusade/soundstream/net/ConnectionWriter.java:114-132 | Adds exactly one entry under the given number, with the given stream and kind and a score of number×100 or number×1. Every existing entry, the cancel set and the finished log are unchanged. Returns the number. |
| ConnectionWriter.Cancel | SoundStream/src/com/thelastcrusade/soundstream/net/ConnectionWriter.java:106-112 | Only adds the number to the pending-cancel set. The queue and finished log are unchanged. |
| ConnectionWriter.ProcessCanceled | SoundStream/src/com/thelastcrusade/soundstream/net/ConnectionWriter.java:168-205 | Empties the pending set and keeps the same queued numbers; cancelled numbers that are not queued are dropped. Each cancelled queued entry holds exactly one encoded Cancelled packet with an empty payload, scored number×1 and of the same kind. Every other entry is untouched. |
| ConnectionWriter.NextQueueEntry | SoundStream/src/com/thelastcrusade/soundstream/net/ConnectionWriter.java:86-92 | poll() returns a queued number whose score is minimal among all entries; among equal scores the model picks the smallest number. |
| ConnectionWriter.WriteEntry | SoundStream/src/com/thelastcrusade/soundstream/net/ConnectionWriter.java:226-245 | The served entry's chunk is a non-empty prefix of its stream, a full send packet or all that is left. If bytes remain the entry is re-queued with the rest under the same score; otherwise it leaves the queue and its number is appended once to the finished log. Pending cancels and packet size are unchanged. |
| ConnectionWriter.WriteOne | SoundStream/src/com/thelastcrusade/soundstream/net/ConnectionWriter.java:219-247 | Writes something exactly when the queue is non-empty. On an empty queue only the pending set is cleared. The invariant is kept, no number is added to the queue, and every number that leaves the queue is logged as finished. |
| ConnectionWriter.WriteOneServesLeastScore | SoundStream/src/com/thelastcrusade/soundstream/net/ConnectionWriter.java:224-245 | The served entry has minimal score once cancels are folded in. Its chunk is a non-empty prefix of its stream of at most one send packet. If bytes remain, it is re-queued with the rest of the stream under the same score. Otherwise it leaves the queue and is appended once to the finished log. |
| ConnectionWriter.WriteOneConserves | SoundStream/src/com/thelastcrusade/soundstream/net/ConnectionWriter.java:226-238 | For every message, the bytes written in one call followed by the bytes still queued equal what was queued after cancels were folded in. |
| ConnectionWriter.WriteEntryConserves | SoundStream/src/com/thelastcrusade/soundstream/net/ConnectionWriter.java:226-245 | Writing one chunk moves bytes from the served entry to the output and changes no other message's bytes. |
| ConnectionWriter.Run | SoundStream/src/com/thelastcrusade/soundstream/net/ConnectionWriter.java:219-247 | Repeated writes keep the invariant and the packet size, and only extend the finished log. Every message queued at the start is still queued or has finished. |
| ConnectionWriter.RunConserves | SoundStream/src/com/thelastcrusade/soundstream/net/ConnectionWriter.java:231-245 | Across any number of writes, the chunks written for a message, concatenated in order and followed by its remaining bytes, are exactly its original stream. |
| ConnectionWriter.NoCancelKeepsQueue | SoundStream/src/com/thelastcrusade/soundstream/net/ConnectionWriter.java:184-190 | With no pending cancels, folding cancels in changes nothing. |
| ConnectionWriter.CanceledRemainingIsCancelPacket | SoundStream/src/com/thelastcrusade/soundstream/net/ConnectionWriter.java:196-202 | After cancel then fold-in, a queued message's remaining bytes are exactly the encoded Cancelled packet for its number. |
| ConnectionWriter.CancelSendsOnlyCancelPacket | SoundStream/src/com/thelastcrusade/soundstream/net/ConnectionWriter.java:184-205 | After a queued message is cancelled, every later byte written for it belongs to the one Cancelled packet. Over any number of writes, what is written plus what remains is exactly that packet. |
| ConnectionWriter.WriteOneKeepsOrder | SoundStream/src/com/thelastcrusade/soundstream/net/ConnectionWriter.java:86-92 | While a strictly lower-scored entry is queued, a write sends nothing for the higher-scored one. The lower one either keeps its lead or has finished. |
| ConnectionWriter.LowerScoreFinishesFirst | SoundStream/src/com/thelastcrusade/soundstream/net/ConnectionWriter.java:206-218 | If any byte of a higher-scored message has been written, every strictly lower-scored message queued with it has already finished. |
| ConnectionWriter.ControlEnqueuedLaterFinishesFirst | SoundStream/src/com/thelastcrusade/soundstream/net/ConnectionWriter.java:134-154 | A control message enqueued while a transfer waits, numbered below 100 times the transfer, finishes before any further byte of the transfer is written. |
| ConnectionWriter.WriteOneProgress | SoundStream/src/com/thelastcrusade/soundstream/net/ConnectionWriter.java:226-238 | Each write on a non-empty queue strictly reduces the number of queued bytes. |
| ConnectionWriter.RunDrains | SoundStream/src/com/thelastcrusade/soundstream/net/ConnectionWriter.java:231-245 | As many writes as there are queued bytes empty the queue. Every queued message is then finished, and no number is finished twice. |
| ConnectionWriter.WriteOneServesUniqueLeast | SoundStream/src/com/thelastcrusade/soundstream/net/ConnectionWriter.java:224-245 | An entry that scores strictly below all others and fits in one packet is written whole and leaves the queue. |
| ConnectionWriter.ScenarioControlBeforeTransfer | SoundStream/src/com/thelastcrusade/soundstream/net/ConnectionWriter.java:134-143 | Enqueue transfer 1, then controls 2 and 3, on a fresh writer. The next writes send all of 2, then all of 3, then a chunk of 1. |
| Messenger.NewMessenger | SoundStream/src/com/thelastcrusade/soundstream/net/wire/Messenger.java:98-102 | A new Messenger starts numbering at 0, with no transfers, received messages or cancel records, the given TTL, and a 4096-byte send packet. |
| Messenger.NewMessengerValid | SoundStream/src/com/thelastcrusade/soundstream/net/wire/Messenger.java:84-102 | A new Messenger satisfies the receive-side invariant for every reassembly stream. |
| Messenger.NewDefaultMessenger | SoundStream/src/com/thelastcrusade/soundstream/net/wire/Messenger.java:81-96 | The one-argument constructor uses a TTL of 60 minutes. |
| Messenger.SerializeMessage | SoundStream/src/com/thelastcrusade/soundstream/net/wire/Messenger.java:123 | The message gets the current counter value; the counter then advances by one in Java int arithmetic. |
| Messenger.Allocate | SoundStream/src/com/thelastcrusade/soundstream/net/wire/Messenger.java:112-124 | n serializations hand out n numbers and advance the counter by n modulo 2^32. |
| Messenger.AllocatedNumberAt | SoundStream/src/com/thelastcrusade/soundstream/net/wire/Messenger.java:123 | The i-th number handed out is the starting counter plus i, wrapped to a Java int. |
| Messenger.AllocatedNumbersDistinct | SoundStream/src/com/thelastcrusade/soundstream/net/wire/Messenger.java:86-123 | Within one Messenger, no number is handed out twice among the first 2^32 allocations. |
| Messenger.AllocatedNumbersIncrease | SoundStream/src/com/thelastcrusade/soundstream/net/wire/Messenger.java:86-123 | Until the counter passes INT_MAX, the numbers are consecutive and strictly increasing. |
| Messenger.AllocationWrapsAtIntMax | SoundStream/src/com/thelastcrusade/soundstream/net/wire/Messenger.java:123 | After number INT_MAX, the next number handed out is INT_MIN. |
| Messenger.ShouldDiscardPacketIffCancelled | SoundStream/src/com/thelastcrusade/soundstream/net/wire/Messenger.java:304-306 | A packet is discarded exactly when its message has a cancel record; a cancellation adds exactly its own number to the discarded ones, and a discarded packet leaves the Messenger unchanged. |
| Messenger.CancelMessage | SoundStream/src/com/thelastcrusade/soundstream/net/wire/Messenger.java:308-311 | Removes the message's transfer and records the cancellation at the current time. Received messages and the counter are unchanged. |
| Messenger.ReceiveMessage | SoundStream/src/com/thelastcrusade/soundstream/net/wire/Messenger.java:332-335 | Removes the completed transfer and appends its decoded message at the end of the received list. Cancel records are unchanged. |
| Messenger.ApplyPacket | SoundStream/src/com/thelastcrusade/soundstream/net/wire/Messenger.java:202-231 | A packet of a cancelled message is discarded and nothing changes. A Cancelled packet leaves no transfer for its number and records the cancel time. A data packet appends its payload to the message's transfer, which is created empty if absent. If the transfer is then complete, the message is delivered at the end of the received list and the transfer removed. No other transfer changes. |
| Messenger.ApplyPacketKeepsValid | SoundStream/src/com/thelastcrusade/soundstream/net/wire/Messenger.java:210-231 | Handling a packet keeps the invariant: no message is both in transfer and cancelled, and no remaining transfer is already complete. |
| Messenger.CancelPacketIdempotent | SoundStream/src/com/thelastcrusade/soundstream/net/wire/Messenger.java:202-221 | A second copy of a Cancelled packet is discarded and leaves the state as the first copy left it. |
| Messenger.ApplyPacketMonotone | SoundStream/src/com/thelastcrusade/soundstream/net/wire/Messenger.java:202-231 | One packet never forgets a cancel record. It only appends to the received list, and by at most one message. |
| Messenger.ActiveTransferCount | SoundStream/src/com/thelastcrusade/soundstream/net/wire/Messenger.java:340-342 | The count is the number of message numbers with an active transfer. |
| Messenger.ActiveTransferCountAfterPacket | SoundStream/src/com/thelastcrusade/soundstream/net/wire/Messenger.java:210-231 | A discarded packet leaves the count unchanged. A cancel or a completion removes the message's transfer if it had one. An incomplete data packet keeps or creates exactly one transfer. |
| Messenger.ProcessFrom | SoundStream/src/com/thelastcrusade/soundstream/net/wire/Messenger.java:195-232 | The packet loop leaves the counter, TTL and send packet size unchanged. |
| Messenger.ProcessPackets | SoundStream/src/com/thelastcrusade/soundstream/net/wire/Messenger.java:186-237 | An empty batch changes nothing and reports false. |
| Messenger.ProcessFromSnoc | SoundStream/src/com/thelastcrusade/soundstream/net/wire/Messenger.java:195-232 | For every batch, one more packet is handled in the state the batch left; the flag becomes its completion result if it is a data packet that is not discarded, and otherwise keeps the batch's value. |
| Messenger.BatchFlagIsLastCompletion | SoundStream/src/com/thelastcrusade/soundstream/net/wire/Messenger.java:187-237 | The flag processAndConsumePackets returns is the completion result of the last data packet that was not discarded, or false when there is none. |
| Messenger.ProcessPacketsKeepsValid | SoundStream/src/com/thelastcrusade/soundstream/net/wire/Messenger.java:186-237 | A whole batch keeps the receive-side invariant. |
| Messenger.ProcessPacketsMonotone | SoundStream/src/com/thelastcrusade/soundstream/net/wire/Messenger.java:186-237 | A batch keeps every cancel record and earlier received message, in order. If it reports true, it has delivered at least one message. |
| Messenger.BatchFlagIsLastDataPacket | SoundStream/src/com/thelastcrusade/soundstream/net/wire/Messenger.java:187-229 | A batch whose first packet completes a message and whose second only starts another delivers the first message yet reports false. |
| Messenger.DiscardedPacketsIrrelevant | SoundStream/src/com/thelastcrusade/soundstream/net/wire/Messenger.java:202-208 | Once a message is cancelled, removing its packets from a batch changes neither the resulting state nor the flag. |
| Messenger.ChunksReassemble | SoundStream/src/com/thelastcrusade/soundstream/net/wire/Messenger.java:223-229 | A message delivered in data packets, not complete before its last one, is delivered once at the end of the received list. Its transfer is gone, and the batch reports true. |
| Messenger.ParseAll | SoundStream/src/com/thelastcrusade/soundstream/net/wire/Messenger.java:192-200 | Cutting packets stops at an empty buffer or at one that does not yet hold a whole packet. |
| Messenger.ConsumeFrom | SoundStream/src/com/thelastcrusade/soundstream/net/wire/Messenger.java:195-232 | The packet loop only shrinks the input buffer. |
| Messenger.ProcessAndConsumePackets | SoundStream/src/com/thelastcrusade/soundstream/net/wire/Messenger.java:186-238 | Starting from a false flag, the result is every whole packet in the buffer handled in order, and what stays in the buffer is empty or an incomplete packet. |
| Messenger.ConsumeIsParseThenProcess | SoundStream/src/com/thelastcrusade/soundstream/net/wire/Messenger.java:192-237 | Interleaving parsing and handling equals parsing the whole buffer and then handling the packets in order. What stays buffered is empty or an incomplete packet. |
| Messenger.WithinTtlIsMinuteTest | SoundStream/src/com/thelastcrusade/soundstream/net/wire/Messenger.java:317-321 | The integer-millisecond test agrees with "elapsed ms / 60000 ≤ TTL minutes" computed as an exact quotient. |
| Messenger.ClearExpiredCanceledMessages | SoundStream/src/com/thelastcrusade/soundstream/net/wire/Messenger.java:316-326 | Keeps exactly the records within the TTL, with unchanged times. The result is a subset of the old records. Transfers and received messages are untouched. |
| Messenger.ClearExpiredProperties | SoundStream/src/com/thelastcrusade/soundstream/net/wire/Messenger.java:316-326 | The sweep keeps the invariant and is idempotent at one clock reading. A later sweep keeps no record that an earlier one dropped. |
| Messenger.ExpiredCancellationNoLongerDiscards | SoundStream/src/com/thelastcrusade/soundstream/net/wire/Messenger.java:304-326 | After its record expires, a packet for that number is no longer discarded. |
| Messenger.ClearReceivedMessages | SoundStream/src/com/thelastcrusade/soundstream/net/wire/Messenger.java:328-330 | The received list becomes empty. Transfers, cancel records and the counter are unchanged. |
| Messenger.SentMessageArrivesIntact | SoundStream-test/src/com/thelastcrusade/soundstream/net/message/TransferSongMessageTest.java:44-48 | Assume a codec whose encoded message decodes back to itself. A message cut into non-empty data packets and sent to a Messenger with no transfer for its number then arrives as itself at the end of the received list. |
| SongMetadataUtils.RemoveColons | SoundStream/src/com/lastcrusade/soundstream/util/SongMetadataUtils.java:20 | The address with colons removed holds no ':' and is no longer than the address. |
| SongMetadataUtils.RemoveColonsAppend | SoundStream/src/com/lastcrusade/soundstream/util/SongMetadataUtils.java:20 | Removing colons from a concatenation removes them from each part, keeping the parts in order. |
| SongMetadataUtils.RemoveColonsIdentity | SoundStream/src/com/lastcrusade/soundstream/util/SongMetadataUtils.java:20 | An address is left unchanged if and only if it holds no ':'. |
| SongMetadataUtils.RemoveColonsIdempotent | SoundStream/src/com/lastcrusade/soundstream/util/SongMetadataUtils.java:20 | Removing colons twice is the same as removing them once. |
| SongMetadataUtils.RemoveColonsCounts | SoundStream/src/com/lastcrusade/soundstream/util/SongMetadataUtils.java:20 | Every character other than ':' is kept exactly as often as it occurs; ':' never is. |
| SongMetadataUtils.RemoveColonsOfJoined | SoundStream/src/com/lastcrusade/soundstream/util/SongMetadataUtils.java:20 | Two colon-free parts joined by ':' become the two parts run together. |
| SongMetadataUtils.NatToDecimal | SoundStream/src/com/lastcrusade/soundstream/util/SongMetadataUtils.java:20 | A decimal rendering is a non-empty string of digits with no leading zero, except for 0 itself. |
| SongMetadataUtils.LongToString | SoundStream/src/com/lastcrusade/soundstream/util/SongMetadataUtils.java:20 | The decimal form of a long contains neither '_' nor ':'. |
| SongMetadataUtils.LongRoundTrip | SoundStream/src/com/lastcrusade/soundstream/util/SongMetadataUtils.java:20 | Parsing the decimal form of a long gives back the long. |
| SongMetadataUtils.LongToStringInjective | SoundStream/src/com/lastcrusade/soundstream/util/SongMetadataUtils.java:20 | Two longs have the same decimal form if and only if they are equal. |
| SongMetadataUtils.DecimalExamples | SoundStream/src/com/lastcrusade/soundstream/util/SongMetadataUtils.java:20 | 42 renders as "42" and -7 as "-7". |
| SongMetadataUtils.GetUniqueKey | SoundStream/src/com/lastcrusade/soundstream/util/SongMetadataUtils.java:19-21 | The key holds no ':' and is one character longer than the colon-free address and the decimal id together. |
| SongMetadataUtils.SplitKeyOfUniqueKey | SoundStream/src/com/lastcrusade/soundstream/util/SongMetadataUtils.java:19-21 | Split at its last '_', a key gives back exactly the colon-free address and the decimal id, whatever '_' the address holds. |
| SongMetadataUtils.SongIdFromKey | SoundStream/src/com/lastcrusade/soundstream/util/SongMetadataUtils.java:20 | The text after the key's final '_' parses back to the song id. |
| SongMetadataUtils.UniqueKeyInjective | SoundStream/src/com/lastcrusade/soundstream/util/SongMetadataUtils.java:19-21 | Two keys are equal if and only if the addresses agree once colons are removed and the ids are equal. |
| SongMetadataUtils.GetSongKey | SoundStream/src/com/lastcrusade/soundstream/util/SongMetadataUtils.java:15-17 | A song's key is the key of its address and id, and splits back into its colon-free address and decimal id. |
| SongMetadataUtils.SongKeyInjective | SoundStream/src/com/lastcrusade/soundstream/util/SongMetadataUtils.java:15-17 | Two songs share a key if and only if their addresses agree up to colons and their ids are equal. |

## Left out

- Locking is not modelled: `queueLock`, the re-adds outside the lock, and Messenger's `activeTransferLock`. Every operation is one atomic step on an immutable state.
- The write and read pump threads are not modelled, and neither are Bluetooth sockets. ConnectionWriteThread.java and MessageThread.java are concurrency and I/O.
- Messenger's stream reading is not modelled (`deserializeMessage`, `blockAndReadOne`, `readNext`), because it is blocking socket I/O. The input is a byte buffer given to a packet parser.
- The PacketFormat, MessageFormat, InputBuffer, FileReceiver and WireRecvOutputStream codecs are not part of this model. They appear only as function parameters with the weakest assumptions the proofs need. WireSendInputStream is modelled concretely as the bytes not yet written; see the WriteEntry line below.
- serializeMessage is modelled only as number allocation. The serialized stream is an input to `ConnectionWriter.Enqueue`.
- removeQueueEntry is not a separate member. Its find-and-remove, then re-adding the replaced entry, is the per-entry replacement in `ConnectionWriter.ProcessCanceled`.
- Logging is not modelled, and neither is the message class beyond "song transfer or not".
- The clock is the parameter `now`. It is read once per call, whereas the source reads it once per cancel and once per swept record.
- MessagingService.java, DefaultParcelableCreator.java, MenuFragment.java, LandingActivity.java and Song.java are not part of this model. They are Android plumbing, reflection, UI, or plain field holders.
- getReceivedMessages and getSendPacketSize are not separate members. They are plain field reads of `receivedMessages` and `sendPacketSize`.
- Enqueue: requires the number to lie in 0..INT_MAX/100 and not to be queued or finished already. The source checks neither. It can overflow `messageNo * 100` and the comparator's `lhs.score - rhs.score` for larger numbers, and that overflow is not modelled.
- WriteOne: requires every queued stream to be non-empty. An empty stream would make the source write a length of -1, and that error path is not modelled.
- NextQueueEntry: breaks ties between equal scores by the smallest message number, and its contract promises that tie-break as well as a minimal score. Java's PriorityQueue leaves the order of equal scores unspecified; the model fixes one of the orders Java may take, so the tie-break is a property of the model, not of the source.
- WriteEntry: the outbound stream is the sequence of bytes not yet written. `read(outBytes)` is taken to return exactly `min(packetSize, remaining)` bytes and `available()` to be exact. Java's `InputStream.read` may return fewer bytes and `available()` is only an estimate (ConnectionWriter.java:226, 231). The full-packet clause of WriteOneServesLeastScore, WriteOneServesUniqueLeast and the scenario lemmas hold under this reading.
- WriteOne: the IOException paths are not modelled. If `outStream.write` throws after the poll, or `cancelPacket.serialize` throws after the remove, the source leaves that entry neither re-queued nor finished; the model has no failing write.
- Enqueue: the queue key and the message number stamped into the stream's packets are not linked. The source's `enqueue` calls `serializeMessage`, which advances the Messenger counter; here the serialized stream is an argument and the allocation is modelled separately by Messenger.SerializeMessage.
- ClearExpiredCanceledMessages: compares whole milliseconds exactly instead of the source's `double` quotient. `WithinTtlIsMinuteTest` proves the two agree under exact division, but floating-point rounding is not modelled.
- SentMessageArrivesIntact: the message codec's round trip is a hypothesis (`RoundTrips`), not a proof, because MessageFormat and the file transfer are not part of this model.
- GetUniqueKey: a null address, for which the source throws a NullPointerException, is not modelled; strings are sequences of Dafny `char`, not UTF-16 code units. Removing `':'` and rendering digits do not depend on that difference.
- ProcessAndConsumePackets: a malformed packet, meaning a codec exception other than "incomplete", is not modelled. The parser only reports a packet or Incomplete.
