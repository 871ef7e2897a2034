# Spindle: event headers, ingestion and replication, in Dafny

This project models the core of the `spindle` module of Ouroboros, a
distributed event log. Four pieces are modelled:

- **EventHeader.** The 28-byte event header. It holds the payload size plus
  28 at offset 0, a magic number at 4, a UUID tag as two big-endian longs at
  8 and 16, and a CRC32 at 24. The model covers its cursor-based `read` and
  `write` against channels that move only part of the bytes. It also covers
  `clear`, `rewind`, `clone` and `seekToPayload`.
- **Event.** The older 12-byte `Event` view: size, magic and CRC32, followed
  by the payload.
- **Spinner.** The ingestion state machine of one inbound connection:
  INITIALIZED, ACCEPTED, READ_HEADER, APPEND. Each read-readiness callback
  reads header bytes. Once the header is complete, it notes the segment's
  size, writes the header at the segment file's own position, and takes
  the file position after the header as the payload's offset. It then
  moves the payload from the socket there with `transferFrom`. The noted
  size is the payload's offset only when the header write or `position()`
  throws.
- **Replicator.** The replication state machine: WAITING, WRITE_HEADER,
  WRITE_PAYLOAD. It waits on a consumer barrier for the next sequence and
  seeks the event's segment to its payload. Write-readiness callbacks then
  write the header into that segment file. The branch that sends the
  payload is never reached.

The Java code works through mutable objects and channels. The model
replaces them with immutable values and oracles:

- A `Conn` value holds the spinner's fields, the segment file as bytes and a
  position, and the bytes the peer has sent that are not consumed yet.
- Each I/O call is decided by an oracle: the `ReadEnv` of a read callback,
  the `TaskEnv` of a `processNext` task, and the `IoResult` of a write.
  An oracle says how many bytes the call moves and whether it throws.
- Java's `int` and `long` arithmetic is modelled with explicit two's
  complement wrap-around.
- An unchecked exception escaping a handler is the `Threw` exit.

Files:

| file | module | contents |
|---|---|---|
| bytes.dfy | `Bytes` | bytes, `int`/`long`, big-endian `getInt`/`putInt`/`getLong`/`putLong` and their round trips |
| io.dfy | `Io` | the result of an I/O call, and how a handler exits |
| segment.dfy | `Segment` | a segment file: `write`, `transferFrom`, `transferTo` |
| event_header.dfy | `EventHeader` | the 28-byte header |
| event.dfy | `Event` | the 12-byte event view |
| spinner.dfy | `Spinner` | the ingestion state machine |
| replicator.dfy | `Replicator` | the replication state machine |

## Model

| member | source | states |
|---|---|---|
| EventHeader.Encode | spindle/src/main/java/com/salesforce/ouroboros/spindle/EventHeader.java:104-106 | `initialize` fills 28 bytes: size, magic, the two tag halves and the CRC32, each big-endian at offsets 0, 4, 8, 16 and 24 |
| EventHeader.Decode | spindle/src/main/java/com/salesforce/ouroboros/spindle/EventHeader.java:50-55 | decoding fails with `Truncated` exactly when fewer than 28 bytes are given; it never decodes part of a header |
| EventHeader.DecodeEncode | spindle/src/main/java/com/salesforce/ouroboros/spindle/EventHeader.java:104-106 | reading back what `initialize` puts gives the same four fields |
| EventHeader.EncodeDecode | spindle/src/main/java/com/salesforce/ouroboros/spindle/EventHeader.java:86-102 | any 28 bytes are the encoding of the fields the accessors read, so every byte belongs to some field |
| EventHeader.New | spindle/src/main/java/com/salesforce/ouroboros/spindle/EventHeader.java:63-66 | the field constructor stores the size plus 28, wrapped to an `int`, and leaves the cursor at the end of the buffer |
| EventHeader.Allocate | spindle/src/main/java/com/salesforce/ouroboros/spindle/Spinner.java:59-63 | a header over a freshly allocated buffer has its cursor at 0 and decodes to all-zero fields, so `size()` reports -28 |
| EventHeader.SizeRestoresStored | spindle/src/main/java/com/salesforce/ouroboros/spindle/EventHeader.java:145-147 | `size()` plus 28, as a Java `int`, is the stored size field, for every stored value |
| EventHeader.Magic | spindle/src/main/java/com/salesforce/ouroboros/spindle/EventHeader.java:93-95 | `getMagic()` is the value whose big-endian encoding is bytes 4 to 8 |
| EventHeader.Tag | spindle/src/main/java/com/salesforce/ouroboros/spindle/EventHeader.java:100-102 | the two halves of `getTag()` encode to bytes 8 to 16 and 16 to 24 |
| EventHeader.Crc32 | spindle/src/main/java/com/salesforce/ouroboros/spindle/EventHeader.java:86-88 | `getCrc32()` is the value whose big-endian encoding is bytes 24 to 28 |
| EventHeader.NewRoundTrip | spindle/src/main/java/com/salesforce/ouroboros/spindle/EventHeader.java:145-147 | `size()`, `getMagic()`, `getTag()` and `getCrc32()` return the constructor's arguments, for every `int` size |
| EventHeader.AccessorsDecode | spindle/src/main/java/com/salesforce/ouroboros/spindle/EventHeader.java:86-102 | the accessors are the decoded fields, with 28 taken off the size; they do not depend on the cursor |
| EventHeader.Clear | spindle/src/main/java/com/salesforce/ouroboros/spindle/EventHeader.java:71-73 | `clear` puts the cursor at 0 and keeps the bytes |
| EventHeader.Rewind | spindle/src/main/java/com/salesforce/ouroboros/spindle/EventHeader.java:124-126 | `rewind` puts the cursor at 0 and keeps the bytes |
| EventHeader.Clone | spindle/src/main/java/com/salesforce/ouroboros/spindle/EventHeader.java:76-81 | the copy has the same 28 bytes and the same field values; the copy and the original both end with the cursor at 28 |
| EventHeader.Read | spindle/src/main/java/com/salesforce/ouroboros/spindle/EventHeader.java:116-119 | a read takes as many offered bytes as fit after the cursor and appends them to what the buffer held; it reports `true` exactly when the buffer is full |
| EventHeader.ReadStepsConsumePrefix | spindle/src/main/java/com/salesforce/ouroboros/spindle/EventHeader.java:116-119 | successive reads from one stream consume a prefix of it, and the buffer holds exactly that prefix after its old contents |
| EventHeader.ReadSplitIndependent | spindle/src/main/java/com/salesforce/ouroboros/spindle/EventHeader.java:116-119 | however a stream is split across reads into a cleared buffer, a full buffer holds the first 28 bytes of the stream |
| EventHeader.Write | spindle/src/main/java/com/salesforce/ouroboros/spindle/EventHeader.java:159-162 | a write emits the bytes after the cursor, as many as the channel accepts; it reports `true` exactly when none remain |
| EventHeader.WriteStepsEmitInOrder | spindle/src/main/java/com/salesforce/ouroboros/spindle/EventHeader.java:159-162 | over any run of partial writes, the output is the buffer's bytes from the starting cursor, in order; from a rewound buffer to a full write, that is all 28 bytes |
| EventHeader.SeekToPayload | spindle/src/main/java/com/salesforce/ouroboros/spindle/EventHeader.java:137-140 | the seek is rejected with `IllegalArgument` exactly when the offset is below -28 or so large that adding 28 overflows a `long`; otherwise the position becomes `offset + 28` and the bytes are kept |
| Event.Size | spindle/src/main/java/com/salesforce/ouroboros/spindle/Event.java:35-37 | `size()` reads a value exactly when the buffer has the 4 size bytes; otherwise it is an index error |
| Event.Magic | spindle/src/main/java/com/salesforce/ouroboros/spindle/Event.java:39-41 | `getMagic()` reads a value exactly when the buffer reaches offset 8; otherwise it is an index error |
| Event.Crc32 | spindle/src/main/java/com/salesforce/ouroboros/spindle/Event.java:43-45 | `getCrc32()` reads a value exactly when the buffer reaches offset 12; otherwise it is an index error |
| Event.GetPayload | spindle/src/main/java/com/salesforce/ouroboros/spindle/Event.java:47-50 | the payload is everything after the 12 header bytes; the view's position moves to 12 |
| Event.FrameDecodes | spindle/src/main/java/com/salesforce/ouroboros/spindle/Event.java:24-50 | a framed event decodes to its magic, CRC32 and payload; `size()` is the payload length (wrapped to an `int`) |
| Event.WellFormedIsFrame | spindle/src/main/java/com/salesforce/ouroboros/spindle/Event.java:24-50 | a buffer whose stored size equals its length is the frame of its own fields, and its payload is `size()` bytes long |
| Segment.TransferFrom | spindle/src/main/java/com/salesforce/ouroboros/spindle/Spinner.java:124 | `transferFrom` moves at most `count` bytes, and no more than the socket has ready, from the front of the socket to the absolute position; it moves nothing past the end of the file |
| Segment.TransferTo | spindle/src/main/java/com/salesforce/ouroboros/spindle/Replicator.java:82 | `transferTo` sends the file's bytes from the absolute position, at most `count` and at most what the socket accepts; it sends nothing past the end of the file |
| Spinner.Initial | spindle/src/main/java/com/salesforce/ouroboros/spindle/Spinner.java:59-63 | a new spinner is INITIALIZED with no segment, `remaining` and `position` at 0, and a header buffer at cursor 0 whose every field reads 0, so its declared size is -28 |
| Spinner.HandleAccept | spindle/src/main/java/com/salesforce/ouroboros/spindle/Spinner.java:70-74 | accepting enters ACCEPTED, requests read interest once, and changes nothing else |
| Spinner.HandleRead | spindle/src/main/java/com/salesforce/ouroboros/spindle/Spinner.java:83-104 | read interest is requested once, unless an exception escapes; in INITIALIZED nothing changes; an escaping exception means `remaining` is negative; the socket is never refilled |
| Spinner.StartHeader | spindle/src/main/java/com/salesforce/ouroboros/spindle/Spinner.java:85-87 | the ACCEPTED branch puts the header cursor at 0, keeps its bytes, enters READ_HEADER and changes nothing else |
| Spinner.AcceptedStartsHeader | spindle/src/main/java/com/salesforce/ouroboros/spindle/Spinner.java:85-90 | from ACCEPTED a callback clears the header and enters READ_HEADER, even when the read then throws |
| Spinner.ReadHeaderStep | spindle/src/main/java/com/salesforce/ouroboros/spindle/Spinner.java:142-162 | a throwing read changes nothing; the segment is looked up (once) exactly when the offered bytes fill the header; without a lookup the segment is untouched and no exception escapes |
| Spinner.FinishHeader | spindle/src/main/java/com/salesforce/ouroboros/spindle/Spinner.java:151-161 | once the header is full there is one lookup; a throwing `size()` returns with nothing changed; otherwise an escaping exception leaves `remaining` at the declared size |
| Spinner.WriteHeader | spindle/src/main/java/com/salesforce/ouroboros/spindle/Spinner.java:164-182 | the header is rewound and as many of its bytes as the file accepts go at the segment's position, which advances past them; the state becomes APPEND with `position` the new file position only when neither the write nor `position()` throws |
| Spinner.SizeFaultRetries | spindle/src/main/java/com/salesforce/ouroboros/spindle/Spinner.java:150-157 | after a throwing `size()` the full header stays in READ_HEADER; the next callback reads nothing, looks the segment up again, and changes nothing if `size()` throws again |
| Spinner.WriteFaultStillAppends | spindle/src/main/java/com/salesforce/ouroboros/spindle/Spinner.java:158-181 | after a throwing header write or `position()`, `remaining` is still the declared size and `append` runs from the noted file size, but the state is not APPEND; after a throwing write the payload lands at the old end of the file with no header |
| Spinner.NegativeSizeStalls | spindle/src/main/java/com/salesforce/ouroboros/spindle/Spinner.java:121-128 | a header whose declared size (`size()`) is negative, i.e. whose stored size is in [-2^31 + 28, 27], enters APPEND with negative `remaining`; `transferFrom` throws, no read interest is requested, and every later callback does the same without changing anything |
| Spinner.PartialHeaderRead | spindle/src/main/java/com/salesforce/ouroboros/spindle/Spinner.java:142-150 | while the header stays incomplete, a callback only moves socket bytes into the header buffer: no lookup, and the segment and counters are untouched |
| Spinner.HeaderCompletes | spindle/src/main/java/com/salesforce/ouroboros/spindle/Spinner.java:142-162 | when the header fills, the segment is looked up once; the 28 bytes are appended at its end and `position` is the offset just past them; `remaining` is the declared size; the state is APPEND; `append` runs in the same callback |
| Spinner.AppendStep | spindle/src/main/java/com/salesforce/ouroboros/spindle/Spinner.java:121-140 | `append` throws exactly when `remaining` is negative, and then changes nothing |
| Spinner.AppendCounters | spindle/src/main/java/com/salesforce/ouroboros/spindle/Spinner.java:121-130 | a transfer raises `position` and lowers `remaining` by the bytes moved, never more than `remaining`; those bytes are the front of the socket, written at the old `position`; an I/O fault changes nothing |
| Spinner.AppendFinishes | spindle/src/main/java/com/salesforce/ouroboros/spindle/Spinner.java:131-139 | at zero `remaining` the segment is positioned at `position` (unless that throws) and dropped, and the state is ACCEPTED; otherwise the state stays APPEND |
| Spinner.OneEventAppended | spindle/src/main/java/com/salesforce/ouroboros/spindle/Spinner.java:83-182 | over fault-free callbacks, an event never leaves the segment holding anything but a prefix of old contents, header, payload; once back in ACCEPTED it holds exactly those, positioned at the end, and the socket holds what followed |
| Spinner.ChunkingIndependent | spindle/src/main/java/com/salesforce/ouroboros/spindle/Spinner.java:83-182 | two fault-free schedules with different chunk sizes that both complete an event leave identical segments and identical unread input |
| Spinner.SameCallbackCompletion | spindle/src/main/java/com/salesforce/ouroboros/spindle/Spinner.java:150-161 | when the socket holds the whole event, one callback appends it with one lookup; this includes a zero-length payload |
| Spinner.RunConserves | spindle/src/main/java/com/salesforce/ouroboros/spindle/Spinner.java:83-182 | over any fault-free schedule, segment, then buffered header bytes, then unread socket bytes is always the original segment followed by everything sent |
| Spinner.DrainedSegmentHoldsInput | spindle/src/main/java/com/salesforce/ouroboros/spindle/Spinner.java:83-182 | a fault-free schedule that reads the socket dry and does not stop inside a header leaves the segment holding its old contents followed by every byte sent |
| Replicator.Init | spindle/src/main/java/com/salesforce/ouroboros/spindle/Replicator.java:99-105 | a new replicator is stopped, WAITING, at the ring's initial cursor -1, with no event and no handler |
| Replicator.Start | spindle/src/main/java/com/salesforce/ouroboros/spindle/Replicator.java:234-245 | `start` leaves the replicator running; it queues one `processNext` only when it was stopped; nothing else changes |
| Replicator.StartIdempotent | spindle/src/main/java/com/salesforce/ouroboros/spindle/Replicator.java:234-237 | a second `start` does nothing |
| Replicator.Halt | spindle/src/main/java/com/salesforce/ouroboros/spindle/Replicator.java:141-145 | `halt` leaves the replicator stopped; it alerts the barrier only when it was running; nothing else changes |
| Replicator.HaltIdempotent | spindle/src/main/java/com/salesforce/ouroboros/spindle/Replicator.java:141-145 | a second `halt` does nothing, and a `halt` of a new replicator does nothing |
| Replicator.HaltStops | spindle/src/main/java/com/salesforce/ouroboros/spindle/Replicator.java:200-203 | after `halt`, a queued `processNext` returns without asking the barrier |
| Replicator.ConnectEnablesReplicate | spindle/src/main/java/com/salesforce/ouroboros/spindle/Replicator.java:153-156 | the handler set by `handleConnect` is what lets `replicate` return normally with one write-interest request; without it the state is WRITE_HEADER and `selectForWrite` throws |
| Replicator.ProcessNext | spindle/src/main/java/com/salesforce/ouroboros/spindle/Replicator.java:200-217 | when stopped, or when the wait is alerted or interrupted, nothing changes; otherwise `sequence` becomes the entry's sequence; the state only ever becomes WRITE_HEADER |
| Replicator.RunTask | spindle/src/main/java/com/salesforce/ouroboros/spindle/Replicator.java:238-243 | running a task consumes exactly one queued `processNext` and leaves `running`, the alerts and the handler alone; with none queued nothing changes; when stopped only the queue shrinks; the sequence or state changes only when an entry was available |
| Replicator.ProcessNextAsksNext | spindle/src/main/java/com/salesforce/ouroboros/spindle/Replicator.java:204-211 | `processNext` consults the barrier for exactly one sequence: one past the last consumed |
| Replicator.ProcessNextReplicates | spindle/src/main/java/com/salesforce/ouroboros/spindle/Replicator.java:204-213 | an available entry becomes the current event with its whole payload due; the state becomes WRITE_HEADER when the seek target is valid |
| Replicator.Replicate | spindle/src/main/java/com/salesforce/ouroboros/spindle/Replicator.java:219-232 | the entry becomes the current event with `payloadRemaining` equal to its size; the segment moves to `offset + 28` unless the seek throws `IOException`; the state becomes WRITE_HEADER even then; write interest is requested once, and the call returns normally exactly when the target is valid and a handler is set |
| Replicator.WriteHeaderToSegment | spindle/src/main/java/com/salesforce/ouroboros/spindle/Replicator.java:75-77 | the header bytes after the cursor go into the segment at its position, not to the socket; both cursors advance together |
| Replicator.SendPayload | spindle/src/main/java/com/salesforce/ouroboros/spindle/Replicator.java:79-88 | bytes are sent from the file position `size - remaining`; zero bytes sent means done; otherwise `payloadRemaining` drops by the bytes sent; a negative position or count throws |
| Replicator.HandleWrite | spindle/src/main/java/com/salesforce/ouroboros/spindle/Replicator.java:164-198 | WAITING only logs; WRITE_HEADER never changes the state and sends nothing to the socket; an escaping exception changes nothing |
| Replicator.InitialQuiescent | spindle/src/main/java/com/salesforce/ouroboros/spindle/Replicator.java:195-203 | a new replicator ignores write callbacks and queued tasks |
| Replicator.HeaderGoesToSegment | spindle/src/main/java/com/salesforce/ouroboros/spindle/Replicator.java:166-177 | in WRITE_HEADER, a write that completes the header puts its remaining bytes into the segment at the segment's position; the state stays WRITE_HEADER |
| Replicator.HeaderStateIsFinal | spindle/src/main/java/com/salesforce/ouroboros/spindle/Replicator.java:166-177 | any number of write callbacks leave a replicator in WRITE_HEADER, having sent nothing |
| Replicator.PayloadTransitions | spindle/src/main/java/com/salesforce/ouroboros/spindle/Replicator.java:178-194 | in WRITE_PAYLOAD, a finished payload returns to WAITING and queues one `processNext`; progress stays in WRITE_PAYLOAD; a fault changes nothing |
| Replicator.PayloadCounters | spindle/src/main/java/com/salesforce/ouroboros/spindle/Replicator.java:79-88 | across successive `writePayload` calls, `payloadRemaining` falls by exactly the bytes sent and never below zero; nothing else about the event changes |
| Replicator.PayloadContiguous | spindle/src/main/java/com/salesforce/ouroboros/spindle/Replicator.java:79-88 | successive calls send one contiguous run of the segment file, starting at `size - remaining` |
| Replicator.PayloadPastEnd | spindle/src/main/java/com/salesforce/ouroboros/spindle/Replicator.java:79-88 | starting past the end of the file, nothing is ever sent |
| Replicator.PayloadFromFileStart | spindle/src/main/java/com/salesforce/ouroboros/spindle/Replicator.java:79-88 | for a fresh event, the bytes sent come from the start of the segment file, not from the payload at `offset + 28` |
| Replicator.NeverWritesPayload | spindle/src/main/java/com/salesforce/ouroboros/spindle/Replicator.java:164-245 | no operation enters WRITE_PAYLOAD, and WRITE_HEADER always has a current event |
| Replicator.FreshNeverWritesPayload | spindle/src/main/java/com/salesforce/ouroboros/spindle/Replicator.java:164-245 | no sequence of calls on a new replicator reaches WRITE_PAYLOAD |
| Replicator.HeaderStateSticks | spindle/src/main/java/com/salesforce/ouroboros/spindle/Replicator.java:164-232 | once an event is taken, the replicator stays in WRITE_HEADER whatever happens |

## Behaviour kept as the code has it

The model follows the code in these places, including where the result
looks unintended:

- **Spinner, failing `segment.size()`.** `readHeader` returns
  (Spinner.java:153-156) with the header buffer full and the state still
  READ_HEADER. The next callback reads nothing into the full buffer, takes
  it as complete, and looks the segment up again (`Spinner.SizeFaultRetries`).
- **Spinner, failing `writeHeader`.** Its early returns (Spinner.java:173
  and 179) end only `writeHeader`. `readHeader` still sets `remaining` and
  calls `append` (lines 159-160), which transfers to the file size noted at
  line 153. The state is not APPEND (`Spinner.WriteFaultStillAppends`).
- **Spinner, header position.** `position` is first taken from
  `segment.size()` (line 153), but the header is written at the file's own
  position (line 167). When the write and `position()` succeed, `position`
  becomes the file position after the header (line 176), so the payload
  follows the header wherever the file was positioned. The size from line
  153 is kept only when the header write or `position()` throws. Header
  and payload go to the end of the file only when the segment is
  positioned at its end.
- **Spinner, negative size.** A header whose declared size (`size()`, the
  stored size less 28 in `int` arithmetic) is negative makes `remaining`
  negative (line 159). That is a stored size in [-2^31 + 28, 27]. A stored
  size in [-2^31, -2^31 + 27] wraps around to a large positive declared
  size instead. `transferFrom` then throws an unchecked exception
  (line 124), which escapes before `selectForRead` (line 103), on this and
  every later callback (`Spinner.NegativeSizeStalls`).
- **Replicator, WRITE_HEADER.** `ReplicatedState.writeHeader`
  (Replicator.java:75-77) writes the header into the segment file at its
  current position, the payload just sought to, and not to the socket. The
  WRITE_HEADER branch of `handleWrite` (lines 166-177) never changes the
  state, and no other code sets WRITE_PAYLOAD. So no payload is ever sent,
  and a replicator that has taken an event never returns to WAITING. The
  repository's replication test (TestReplicator.java:146-160) waits for
  WRITE_PAYLOAD and then WAITING, which this code does not reach.
- **Replicator, `writePayload`.** It transfers from the absolute file
  position `size - remaining`, ignoring the event's offset (lines 81-82).
  A transfer of zero bytes counts as done and returns to WAITING (lines
  83-85 and 180-181).
- **EventEntry.** It has an offset and a channel but no header accessor,
  although `replicate` calls `entry.getHeader()` (Replicator.java:220). The
  model's `Entry` is a record of sequence, offset and header.

## Left out

- I/O is not modelled directly: sockets, files, the bundle, the ring
  buffer's barrier and the executor are oracles or counters. Logging,
  `toString` and `getState` are not modelled either.
- Concurrency is left out. The Replicator uses atomics; the model is one
  sequential history of calls. The file a spinner writes and the file a
  replicator reads are separate values, not one shared channel.
- The bundle's choice of segment is left out. The Spinner is modelled with
  one segment for all events of a connection.
- Publishing a committed event to the ring buffer happens outside `Spinner`
  and is not part of this model; neither are `IdentifiedEvent` and CRC
  validation.
- The `UnsupportedOperationException` stubs are not modelled:
  `Spinner.handleConnect`, `Spinner.handleWrite`,
  `Replicator.handleAccept` and `Replicator.handleRead`. The empty
  `closing` methods are not modelled either.
- The Java `assert` in `handleAccept` is not modelled; assertions are off by
  default.
- Spinner.AppendStep: `position` and `remaining` are unbounded integers;
  `long` overflow needs more than 2^63 bytes in one segment.
- The Spinner's whole-event lemmas (`HeaderCompletes`, `OneEventAppended`,
  `ChunkingIndependent`, `RunConserves` and the rest) assume that the bundle
  hands out a segment positioned at its end. The bundle is not part of this
  model. A segment positioned elsewhere gets the header at its position and
  the payload right after the header; only the single-callback contracts
  cover that case.
  Through `FaultFree` they also assume that each header write takes all 28
  bytes; a short header write is covered only by `Spinner.WriteHeader`.
- Segment.WriteAt: a write past the end of the file fills the gap with
  zeros. `FileChannel` leaves the content of such a gap unspecified. The
  Spinner never writes past the end of a segment positioned at its end.
- EventHeader.Size: carries no contract of its own, because nearly every
  proof about the state machines mentions it. Its value is stated by
  `EventHeader.AccessorsDecode`, `EventHeader.SizeRestoresStored` and
  `EventHeader.NewRoundTrip`.
- Replicator.HandleConnect: it only records that a handler is set. What
  that changes is stated by `Replicator.ConnectEnablesReplicate`.
- Event.Size: the contract states only when `size()` fails. The value it
  reads is stated by `Event.FrameDecodes` and `Event.WellFormedIsFrame`.
- Event.Magic: the contract states only when `getMagic()` fails. The value
  is stated by `Event.FrameDecodes` and `Event.WellFormedIsFrame`.
- Event.Crc32: the contract states only when `getCrc32()` fails. The value
  is stated by `Event.FrameDecodes` and `Event.WellFormedIsFrame`.
