# CANopen SDO and CANopenNode: a verified model

This project models the protocol core of a CANopen SDO library and of the vendored C stack
beside it, in Dafny 4.11, and proves what the two are for. `dafny verify dfyconfig.toml`
checks everything.

**The Rust SDO client and server.** Both are sans-IO state machines with a one-slot transmit
buffer. `ServerSpec` and `ClientSpec` describe them on values; `Server` and `Client` are the
machines as written, with arrays, counters and toggle bits changed in place, and are proved to
do the same for every call. On top of that:

- `Frames`: every byte they put on the bus, as numbers.
- `Loopback`, `Driver`: wired back to back, the pair is the object dictionary. Every transfer
  ends after an exact number of exchanges, reads are snapshots, writes are one write, abort
  codes arrive. `Driver` runs the two objects themselves.
- `Channel`: over a bus that loses and repeats frames, with timeouts and refusals at any
  moment, a transfer that reports success has moved exactly the right bytes.
- `Lineups`, `Course`, `Leftovers`: when frames of earlier transfers are still on their way to
  the client this can fail; with nothing on its way to the server and the server idle, it is
  proved exactly when, for every read and every write below 2^32 bytes. A line-up is a
  sequence of frames, left over or the server's own, that move the client one after another.
  What runs report is what line-ups spell, and the other way round.
- `AnyBus`: requests of earlier transfers can be left over too, and the server can be busy. For
  short writes that change the object the exact condition is proved over whatever is on the bus.
- `ServerRuns`, `ClientRuns`: each machine against an arbitrary peer, over all runs:
  atomic writes, deadlines, non-interference, what a completion means.

**The vendored C stack.** `Fifo` is the ring buffer with a second read cursor, proved to be a
queue; `BlockDownload` and `BlockUpload` are the block transfers of the C client over it.
`Emergency` is the ring that is both send queue and error history. `Pdo` is mapping, packing
and unpacking; `Tpdo` the schedule. `OdAccess` is chunked access and bisection.

Conventions. Bytes and words are bounded integers, and `Wire.MasksAreArithmetic` ties masks to
divisions. Sizes on the wire are taken modulo 2^32 as in the source, so results also cover
payloads of 2^32 bytes and more: `Loopback.Direct` says what such a transfer reports. Time is
unbounded: `now + timeout` is taken not to overflow 64 bits. The object dictionary of the Rust
server is any state with any `read` and `write`, truthful or not, except in `Channel`, where
it stores what is written or refuses. A class field marked `ghost` is history and takes no part
in what the code does. Each C call is one atomic step.

What the proofs turned up:

- A code `Unknown(k)` around a listed number comes back as the listed code (`Wire.Canonical`).
- Frames left in the channel from an earlier transfer can complete a later one: an answer is
  believed (`Channel.StaleAcknowledgementIsBelieved`, `Channel.StaleValueIsBelieved`). A write
  of two or more segments needs three such frames in order, its opening acknowledgement and
  two segment acknowledgements, after which the client stays two segments ahead of the server
  to the end (`Leftovers.WriteIsSafeIffNoChain`).
- A request left over can do the same: an old write of the object still on its way is stored and
  acknowledged, and a new write reports success on that acknowledgement while its own request
  is lost (`AnyBus.UncleanIsBelieved`).
- `PDO_initMapping` does not bound the number of mapped objects and tolerates absent
  sub-entries; the mapping invariant holds exactly when neither occurs
  (`Pdo.ProcessData.InitMapping`, `Pdo.NineMappedObjects`, `Pdo.AbsentEntryComesIntoForce`).
- The block size in a sub-block response is not range-checked, unlike the first one; above 127
  the segment header becomes ambiguous (`BlockDownload.NumbersRunOut`).
- A chunked dictionary write that fails has already changed the variable
  (`OdAccess.OverlongKeepsThePrefix`), unlike a segmented download of the Rust server.
- The comment in `PDOconfigMap` says an erroneous map leaves the entry unchanged; the caller at
  start-up then marks it as erroneous (length 0, mapped 255). The model follows the code.

## Model

| member | source | states |
|---|---|---|
| `Wire.IdentifiersNameTheNode` | src/frame.rs:26-54 | Request and response identifiers give back the node they were made for, and never pass for each other |
| `Wire.MasksAreArithmetic` | src/wire.rs:20-55 | On every byte the decoders of the model - specifier, toggle, expedited and size bits, segment and expedited length - are the masks and shifts of the source |
| `Wire.SegmentCommandDecodes` | src/wire.rs:48-63 | A segment command made for any length 0..7 decodes to the same specifier, toggle, length and last-segment mark |
| `Wire.InitCommandDecodes` | src/client.rs:503-514 | An expedited command for 1..4 bytes decodes as expedited, sized, and of that length |
| `Wire.Le32RoundTrip` | src/wire.rs:34-42 | A 32-bit number survives being written as four little-endian bytes |
| `Wire.AddressedFields` | src/client.rs:488-524 | A body built for an index, sub-index and up to four bytes gives each of them back |
| `Wire.SegmentBodyFields` | src/wire.rs:66-71 | A segment body gives back its command and its payload, zero-filled to eight bytes |
| `Wire.AbortBodyFields` | src/wire.rs:34-42 | An abort body decodes as an abort of the same object with the code the number stands for |
| `Wire.AbortCodeRoundTrip` | src/abort.rs:76-152 | Every number survives number to code to number; a code survives the wire if and only if it is not `Unknown` around a listed number |
| `Wire.ZerosAreZero` | src/wire.rs:66-71 | What fills a frame up is zero |
| `Frames.Identifiers` | src/frame.rs:26-54 | Requests go out under 0x600 + node and responses under 0x580 + node, and only those are taken for them |
| `Frames.ReadRequests` | src/client.rs:488-501 | Every byte of the requests of a read: 40 with the object, then 60 and 70 in turn |
| `Frames.WriteRequests` | src/client.rs:503-530 | Every byte of the requests of a write: 23, 27, 2B or 2F with the value, or 21 with the size, then each segment with its toggle, free bytes and last mark |
| `Frames.ReadResponses` | src/server.rs:195-260 | Every byte of the answers to a read: 43, 47, 4B or 4F with the value, or 41 with the size, then the segments |
| `Frames.WriteResponses` | src/server.rs:406-420 | Every byte of the answers to a write: 60 with the object, then 20 and 30 in turn |
| `Frames.Aborts` | src/wire.rs:34-42 | Every byte of an abort: 80, the object, the number of the code, low byte first |
| `Frames.OwnAborts` | src/abort.rs:76-113 | The five aborts the machines raise themselves, as bytes |
| `Frames.ProtocolNumbers` | src/abort.rs:76-113 | The numbers of the codes about the protocol |
| `Frames.ObjectNumbers` | src/abort.rs:76-113 | The numbers of the codes about the object |
| `Frames.ValueNumbers` | src/abort.rs:76-113 | The numbers of the codes about the value |
| `Frames.DeviceNumbers` | src/abort.rs:76-113 | The numbers of the codes about the device |
| `Frames.StartBytes` | src/client.rs:123-179 | Starting a transfer from rest queues its opening request, byte by byte |
| `Frames.AbortBytes` | src/client.rs:439-457 | Giving up a transfer queues the abort of its object, byte by byte |
| `Frames.UnknownCommands` | src/server.rs:165-169 | A command of A0 or above is answered by the abort 05040001 of the object it names, drops the open transfer and leaves the dictionary alone |
| `Segments.ChunksConcatenate` | src/client.rs:413-424 | The seven-byte chunks of a value, taken in order up to the last one, are exactly the value |
| `ServerSpec.ConfigurationIsFixed` | src/server.rs:145-173 | No frame changes the node, the timeout or the buffer size of a server |
| `Server.SdoServer.constructor` | src/server.rs:99-106 | A new server is idle with empty slot and no deadline |
| `Server.SdoServer.PollTransmit` | src/server.rs:112-114 | Hands out the queued frame once |
| `Server.SdoServer.HandleTimeout` | src/server.rs:122-137 | Aborts the open transfer exactly at or past the deadline; state, slot and deadline as specified |
| `Server.SdoServer.HandleFrame` | src/server.rs:145-173 | For any frame and any dictionary, even one that lies about lengths: no slice or subtraction leaves its range, and the buffer, counters and toggle bit stand for the specified transfer |
| `Server.SdoServer.OnInitUpload` | src/server.rs:175-227 | One dictionary read; error, over-long value, expedited and segmented answers as specified |
| `Server.SdoServer.OnUploadSegment` | src/server.rs:229-264 | Serves the next seven bytes of the buffered value, or aborts on a wrong toggle or no transfer |
| `Server.SdoServer.OnInitDownload` | src/server.rs:266-312 | Expedited write at once whatever the buffer size; a segmented one opens with the announced size checked against the buffer |
| `Server.SdoServer.OnDownloadSegment` | src/server.rs:314-368 | Appends the segment in place, or writes the dictionary on the last one if the size agrees |
| `Server.SdoServer.Abort` | src/server.rs:395-403 | Leaves the server idle, without deadline, with the abort frame queued |
| `Client.SdoClient.constructor` | src/client.rs:108-115 | A new client is idle with empty slot and no deadline |
| `Client.SdoClient.BeginUpload` | src/client.rs:123-145 | Refuses when busy or for a bad node; otherwise queues the request and sets the deadline |
| `Client.SdoClient.BeginDownload` | src/client.rs:147-179 | The same, refusing an empty payload; expedited up to four bytes |
| `Client.SdoClient.PollTransmit` | src/client.rs:183-185 | Hands out the queued frame once |
| `Client.SdoClient.HandleTimeout` | src/client.rs:191-201 | Aborts the transfer exactly at or past the deadline |
| `Client.SdoClient.HandleFrame` | src/client.rs:203-237 | The in-place client does, for every frame, what the value-level client does; the payload position and toggle stand for the number of segments acknowledged |
| `Client.SdoClient.Abort` | src/client.rs:242-244 | Ends the transfer and queues the abort frame |
| `Client.SdoClient.AdvanceUpload` | src/client.rs:248-344 | Accepts only the awaited response of the awaited object and toggle; collects bytes and checks the announced size at the end |
| `Client.SdoClient.AdvanceDownload` | src/client.rs:346-411 | Accepts only the awaited acknowledgement; sends the next segment or completes |
| `Client.SdoClient.QueueNextDownloadSegment` | src/client.rs:413-424 | Queues segment number k of the payload with its own toggle |
| `Protocol.ServerOpensUpload` | src/server.rs:175-227 | The opening read request gets response number 0 of the session, or an abort with the dictionary code or out-of-memory |
| `Protocol.ServerServesSegment` | src/server.rs:229-264 | Request number j of an upload gets response number j, and the dictionary is not touched |
| `Protocol.ServerOpensDownload` | src/server.rs:266-312 | A short write reaches the dictionary with exactly the payload; a long one is opened or refused for room |
| `Protocol.ServerTakesSegment` | src/server.rs:314-368 | Segment j of a download is acknowledged, refused for room or size, or, if last, written as the whole payload |
| `Protocol.ClientAdvances` | src/client.rs:248-424 | The awaited response moves the client to the next request, and the last one ends the transfer with its result |
| `Protocol.ClientLearnsAbort` | src/client.rs:214-228 | An abort for the object in flight ends the transfer with the decoded code |
| `Loopback.UploadIsASnapshot` | src/server.rs:183-252 | Lossless read of any length: pending until its exact number of exchanges (1 for 1..4 bytes, otherwise 1 + max(1, ceil(len/7))), then the value of the single read at initiation, whatever the application does to the object meanwhile |
| `Loopback.DownloadIsOneWrite` | src/server.rs:266-368 | Lossless write of any non-empty payload: pending until its exact number of exchanges, then the result of one dictionary write of the whole payload |
| `Loopback.PerformIsDirect` | src/loopback_tests.rs:55-77 | One operation over the pair equals the direct dictionary call in result and final dictionary, and leaves both machines idle with empty slots |
| `Loopback.AbortCodesArrive` | src/client.rs:214-228 | A code the dictionary refuses with, at initiation, short write or last segment, is reported as `from(raw(code))`, which is the code itself if and only if it does not hide a listed number |
| `Loopback.LoopbackRefinesDictionary` | src/loopback_tests.rs:85-155 | Any sequence of reads and writes, at any times, gives the results and the final dictionary of calling `read` and `write` directly |
| `Driver.Pump` | src/loopback_tests.rs:62-75 | One round over the two objects is one exchange of the value-level pair |
| `Driver.Drive` | src/loopback_tests.rs:55-77 | The test driver over the client and server objects ends with the result and dictionary of the direct call, after the exact number of exchanges, if and only if its limit allows two frames for each |
| `Driver.PatienceIsEnoughFor` | src/loopback_tests.rs:61-76 | The 10000 iterations of the driver are enough for exactly the lengths up to 34993 |
| `Driver.EveryExchangeCounts` | src/loopback_tests.rs:62-74 | The driver never stalls: before the last exchange a request is always waiting |
| `Channel.InvHolds` | src/client.rs:248-411 | The protocol invariant (client waits for n, server has answered m with n <= m <= n+1, queues hold only frames of this window, in order) holds in every state reachable under loss, repetition, timeouts and refusals |
| `Channel.UploadIsSafe` | src/server.rs:175-264 | Over any such run from an empty bus, whatever transfer the server still held, a completed upload is exactly the stored value, and the store never changes |
| `Channel.DownloadIsSafe` | src/server.rs:266-368 | Over any such run from an empty bus, whatever transfer the server still held, the store holds the old value or the whole payload, and the payload from the moment success is reported |
| `Channel.StaleAcknowledgementIsBelieved` | src/client.rs:354-378 | A left-over acknowledgement of the same object completes a short write the server never saw |
| `Channel.StaleValueIsBelieved` | src/client.rs:256-297 | A left-over expedited answer is reported as the value of a new read, whatever is stored |
| `Lineups.SpellsIff` | src/client.rs:256-342 | Frames from any transfers make a read complete, one after another, if and only if by their identifiers, commands, objects, toggles, final marks and sizes they spell a value, and that value is reported |
| `Lineups.WriteLineup` | src/client.rs:354-411 | The same for a write |
| `Course.CourseHolds` | src/client.rs:203-457 | With any frames left over, every reachable state under loss, repetition, timeouts and refusals: what the client has heard is a line-up, and requests and answers still on their way follow in order |
| `Course.ServerAccepts` | src/server.rs:314-368 | When requests get lost while the client runs ahead, the size check on the last segment finds every gap: nothing but the whole payload is stored |
| `Leftovers.LineupHappens` | src/client.rs:203-424 | Every line-up that completes is a run that reports its result, the server having answered no more than it goes through |
| `Leftovers.ReadIsSafeIff` | src/client.rs:256-342 | With any frames left over, every run of a read that reports a value reports the stored one, if and only if the left-over frames and the server answers spell, by their fields, no other value |
| `Leftovers.WriteIsSafeIff` | src/client.rs:354-424 | With any frames left over, every run of a write that reports success has stored the payload, if and only if it was stored already or every completing line-up ends with the last answer of the server |
| `Leftovers.WriteIsSafeIffNoChain` | src/client.rs:354-424 | For every write that fits: safe if and only if stored already, or no left-over frames in order pass for its opening acknowledgement and those of its first one or two segments |
| `Leftovers.ShortWriteIsSafeIff` | src/client.rs:354-378 | For a short write: safe if and only if stored already, or no acknowledgement of the object is left over |
| `Leftovers.NothingOpensNothingHarms` | src/client.rs:256-297 | For every length: no left-over opening answer of the object, no harm, whichever segments or aborts are left over |
| `Leftovers.QuietBusIsSafe` | src/client.rs:203-424 | The same over all runs |
| `AnyBus.CleanRequest` | src/server.rs:145-368 | A left-over request that neither writes another value to the object nor opens a download of it leaves no acknowledgement behind unless the payload is stored, whatever the server was doing |
| `AnyBus.UncleanIsBelieved` | src/server.rs:278-311 | Any other left-over request is acknowledged, the acknowledgement is believed, and the payload is not what it stores |
| `AnyBus.ShortWriteOverAnyBus` | src/client.rs:354-378 | With anything left over in both directions and the server in any state, a short write of a value the object does not hold is safe if and only if no left-over request writes or opens the object otherwise and no acknowledgement of it is on its way back |
| `ServerRuns.DeadlineDiscipline` | src/server.rs:386-393 | In every reachable state a deadline is pending exactly when a transfer is open and the timeout is not zero, at the time of the last frame for this node plus the timeout |
| `ServerRuns.AbortsAreQueued` | src/server.rs:122-403 | An abort raised by any frame, or by the timer exactly when the deadline of an open transfer has come, leaves the server idle, without deadline, with exactly that abort queued under its identifier and for the object in question |
| `ServerRuns.AbortsIff` | src/server.rs:145-368 | For every command number: when the server aborts and with which code - nothing open, out of turn, no room, wrong size, dictionary refusal, unknown command - and that it does not otherwise |
| `ServerRuns.TimesOutIff` | src/server.rs:122-137 | Over runs: the timer aborts exactly when timeouts are on, a transfer is open and the timeout has passed since the last frame for this node |
| `ServerRuns.DownloadIsTheOpenChain` | src/server.rs:266-368 | After any run a download is open if and only if the history holds its opening followed only by its own segments in toggle order, in time and in room; its buffer is their concatenation |
| `ServerRuns.WritesAreAtomic` | src/server.rs:278-366 | Against any client: every change of the dictionary is a read at upload initiation, an expedited write, or a write of the exact concatenation of the segments since the latest opening, of the announced size if any; nothing else reaches it |
| `ServerRuns.CallMade` | src/server.rs:145-173 | The one dictionary call, or none, that a frame causes in each state |
| `ClientRuns.IgnoredIffIrrelevant` | src/client.rs:203-237 | A frame leaves the client untouched if and only if it is not the awaited response or an abort of the object in flight |
| `ClientRuns.ForeignIsIrrelevant` | src/client.rs:459-471 | Frames of other nodes, outside the response range, or aborts of other objects are irrelevant |
| `ClientRuns.InsertionIsInvisible` | src/client.rs:203-272 | A frame irrelevant at its moment, inserted anywhere into any run, changes no later state, slot, deadline or result |
| `ClientRuns.IrrelevantFramesAreInvisible` | src/client.rs:203-370 | Any run, with however many irrelevant frames wherever, is the run without them |
| `ClientRuns.ForeignFramesAreInvisible` | src/client.rs:203-471 | Taking any choice of foreign frames out of any run changes neither the final client nor anything reported |
| `ClientRuns.DeadlineDiscipline` | src/client.rs:428-437 | In every reachable state a deadline is pending exactly when a transfer is, at the time of the last begun or accepted step plus the timeout |
| `ClientRuns.AbortsAreQueued` | src/client.rs:439-457 | Whenever the client reports that it aborted, it is idle with the matching abort frame queued |
| `ClientRuns.TimesOutIff` | src/client.rs:191-201 | Over runs: the timer ends a transfer with a timeout abort exactly when one is in progress and the timeout has passed since it last moved, and otherwise does nothing |
| `ClientRuns.AbortsIff` | src/client.rs:299-402 | When the client aborts on a frame and with which code: out of turn, or another size than announced, and never otherwise |
| `ClientRuns.StartsIff` | src/client.rs:123-179 | Starting is refused without a trace for a bad node, an empty payload or a transfer in progress, each with its error, and otherwise sets state and deadline |
| `ClientRuns.CompletedUploadIsWhatWasHeard` | src/client.rs:299-342 | Against any server: a completed segmented upload is the concatenation of the segments heard since its opening, toggles 0, 1, 0, ..., only the last one final, of the announced length if any |
| `ClientRuns.CompletedDownloadQueuedThePayload` | src/client.rs:380-424 | Against any server: a completed segmented download queued every payload byte once, in order, each segment acknowledged with its own toggle; every frame put into the slot counts |
| `ClientRuns.SlotFollowsTheTransfer` | src/client.rs:413-431 | An event that does not move a transfer queues nothing |
| `Fifo.FoldJoins` | CANopenNode-test/upstream/CANopenLinux/CANopenNode/301/CO_fifo.c:190-213 | The checksum of two pieces in turn is that of their concatenation, for any byte step |
| `Fifo.ByteFifo.constructor` | CANopenNode-test/upstream/CANopenLinux/CANopenNode/301/CO_fifo.c:51-62 | An empty ring of the given size |
| `Fifo.ByteFifo.Occupied` | CANopenNode-test/upstream/CANopenLinux/CANopenNode/301/CO_fifo.h:140-147 | Pointer arithmetic gives the length of the queue |
| `Fifo.ByteFifo.Space` | CANopenNode-test/upstream/CANopenLinux/CANopenNode/301/CO_fifo.h:123-130 | Pointer arithmetic gives the free room, one slot less than the ring |
| `Fifo.ByteFifo.Write` | CANopenNode-test/upstream/CANopenLinux/CANopenNode/301/CO_fifo.c:79-116 | Appends the longest prefix that fits, across wrap-around, and checksums exactly it |
| `Fifo.ByteFifo.Read` | CANopenNode-test/upstream/CANopenLinux/CANopenNode/301/CO_fifo.c:119-162 | Takes the front of the queue |
| `Fifo.ByteFifo.AltBegin` | CANopenNode-test/upstream/CANopenLinux/CANopenNode/301/CO_fifo.c:166-187 | Puts the second cursor the given number of bytes ahead, or at the end |
| `Fifo.ByteFifo.AltRead` | CANopenNode-test/upstream/CANopenLinux/CANopenNode/301/CO_fifo.c:216-242 | Reads behind the second cursor without taking anything from the queue |
| `Fifo.ByteFifo.AltFinish` | CANopenNode-test/upstream/CANopenLinux/CANopenNode/301/CO_fifo.c:190-213 | Drops exactly the bytes before the second cursor and checksums them |
| `BlockDownload.LostBytes` | CANopenNode-test/upstream/CANopenLinux/CANopenNode/301/CO_SDOclient.c:684-688 | What a partial acknowledgement takes off `sizeTran` is exactly the bytes of the segments lost, the short last one included |
| `BlockDownload.HeaderReadsBack` | CANopenNode-test/upstream/CANopenLinux/CANopenNode/301/CO_SDOclient.c:917-945 | Sequence number and last mark can be read back if and only if the number is at most 127 |
| `BlockDownload.NumbersRunOut` | CANopenNode-test/upstream/CANopenLinux/CANopenNode/301/CO_SDOclient.c:703-712 | The block size of a later sub-block is not checked: with one above 127 and 128 segments to send, header 128 is sent and does not read back |
| `BlockDownload.Sender.constructor` | CANopenNode-test/upstream/CANopenLinux/CANopenNode/301/CO_SDOclient.c:364-400 | A transfer that has taken nothing yet; short data of known size go the regular way |
| `BlockDownload.Sender.SendInitiate` | CANopenNode-test/upstream/CANopenLinux/CANopenNode/301/CO_SDOclient.c:891-909 | The request names the object, and the size if known |
| `BlockDownload.Sender.Arrives` | CANopenNode-test/upstream/CANopenLinux/CANopenNode/301/CO_SDOserver.c:75-99 | The server goes by the number it reads: the next segment is taken, a marked, last or out-of-turn one ends its sub-block, whatever is lost or repeated |
| `BlockDownload.TakesAPrefix` | CANopenNode-test/upstream/CANopenLinux/CANopenNode/301/CO_SDOserver.c:75-99 | While numbers read back, what it has taken are the first segments of the sub-block |
| `BlockDownload.TakesIff` | CANopenNode-test/upstream/CANopenLinux/CANopenNode/301/CO_SDOserver.c:75-99 | A segment is taken exactly when it is the next one, and the sub-block ended exactly on mark, last number or out of turn |
| `BlockDownload.WholeSubblockIsTaken` | CANopenNode-test/upstream/CANopenLinux/CANopenNode/301/CO_SDOserver.c:75-99 | A sub-block that comes through whole is taken whole |
| `BlockDownload.Sender.BufWrite` | CANopenNode-test/upstream/CANopenLinux/CANopenNode/301/CO_SDOclient.c:416-422 | The bytes taken join the stream, at any moment, without upsetting the transfer |
| `BlockDownload.Sender.OnInitiateRsp` | CANopenNode-test/upstream/CANopenLinux/CANopenNode/301/CO_SDOclient.c:651-679 | The first sub-block opens exactly on the right command for the right object, with a block size of 1..127 |
| `BlockDownload.Sender.SendSegment` | CANopenNode-test/upstream/CANopenLinux/CANopenNode/301/CO_SDOclient.c:911-957 | Sends exactly the next up to seven bytes of the stream behind those acknowledged and in flight; when it waits, aborts on size, finishes or ends the sub-block, each if and only if; its header reads back for block sizes up to 127 |
| `BlockDownload.Sender.OnAck` | CANopenNode-test/upstream/CANopenLinux/CANopenNode/301/CO_SDOclient.c:681-715 | For any acknowledgement: the first k segments are delivered for good, sending resumes at the first unacknowledged byte, the queue holds exactly the rest, and the end is reached only with everything delivered; a server that acknowledges what it took, in blocks of at most 127, holds exactly what is delivered |
| `BlockDownload.Sender.SendEnd` | CANopenNode-test/upstream/CANopenLinux/CANopenNode/301/CO_SDOclient.c:961-970 | At the end everything handed over before the last segment was marked is delivered; the checksum is that of all of it, and padding makes up whole segments |
| `BlockDownload.Sender.OnEndRsp` | CANopenNode-test/upstream/CANopenLinux/CANopenNode/301/CO_SDOclient.c:717-727 | Completion: delivered is the stream up to its mark, the queue is the rest, and a server that told its counts holds exactly the delivered bytes |
| `BlockUpload.FollowsToTheEnd` | CANopenNode-test/upstream/CANopenLinux/CANopenNode/301/CO_SDOclient.c:1396-1403 | A last segment stripped of its padding completes the source if and only if the length is right |
| `BlockUpload.Receiver.constructor` | CANopenNode-test/upstream/CANopenLinux/CANopenNode/301/CO_SDOclient.c:1044-1062 | A new upload starts with an emptied buffer |
| `BlockUpload.Receiver.SendInitiate` | CANopenNode-test/upstream/CANopenLinux/CANopenNode/301/CO_SDOclient.c:1572-1597 | The request names the object and offers min(127, room/7) segments, or the transfer is given up when not one fits |
| `BlockUpload.Receiver.OnInitiateRsp` | CANopenNode-test/upstream/CANopenLinux/CANopenNode/301/CO_SDOclient.c:1320-1387 | Block, regular and erroneous answers told apart exactly; checksum use and size taken from the answer |
| `BlockUpload.Receiver.SendStart` | CANopenNode-test/upstream/CANopenLinux/CANopenNode/301/CO_SDOclient.c:1599-1613 | A3 goes out and the first sub-block starts with nothing accepted |
| `BlockUpload.Receiver.Receive` | CANopenNode-test/upstream/CANopenLinux/CANopenNode/301/CO_SDOclient.c:65-141 | Whatever arrives: a segment is accepted if and only if it is the next one, and then whole; free room stays at least 7*(blksize - seqno); the sub-block ends exactly on last, full or out-of-order; while accepted segments are the server own, what is accepted is a prefix of its source |
| `BlockUpload.Receiver.SubblockTimeout` | CANopenNode-test/upstream/CANopenLinux/CANopenNode/301/CO_SDOclient.c:1504-1515 | A silent sub-block ends with what was accepted |
| `BlockUpload.Receiver.SendAck` | CANopenNode-test/upstream/CANopenLinux/CANopenNode/301/CO_SDOclient.c:1615-1680 | The frame A2 acknowledges exactly the segments accepted in the sub-block and names a next block size of 1..127 that fits the free room; room for a delayed last segment is kept |
| `BlockUpload.Receiver.OnEnd` | CANopenNode-test/upstream/CANopenLinux/CANopenNode/301/CO_SDOclient.c:1396-1429 | Stores the unpadded last segment in full; succeeds if and only if length and checksum of everything accepted agree; from a server that sent its own segments and size, success means the whole source |
| `BlockUpload.Receiver.SendEnd` | CANopenNode-test/upstream/CANopenLinux/CANopenNode/301/CO_SDOclient.c:1682-1689 | A1 goes out; the bytes fetched and the bytes buffered are together exactly those accepted |
| `BlockUpload.Receiver.BufRead` | CANopenNode-test/upstream/CANopenLinux/CANopenNode/301/CO_SDOclient.c:1762-1769 | The application may fetch at any moment; bytes come in order and once |
| `Emergency.Producer.constructor` | CANopenNode-test/upstream/CANopenLinux/CANopenNode/301/CO_Emergency.c:358-359 | An empty ring of the given size |
| `Emergency.Producer.Error` | CANopenNode-test/upstream/CANopenLinux/CANopenNode/301/CO_Emergency.c:639-710 | A message is accepted if and only if the condition changes and the queue has room; a full queue loses the message, keeps the condition and raises the overflow mark; an unknown bit is reported under its own number as an internal error |
| `Emergency.Producer.Process` | CANopenNode-test/upstream/CANopenLinux/CANopenNode/301/CO_Emergency.c:557-606 | A message is sent if and only if the driver is free, the node operational, one is pending and the time in such passes since the last send has reached the inhibit time, with the case of the 32-bit timer wrapping around stated apart; once each, in the order accepted, with the error register; the overflow report and its reset always find room |
| `Emergency.Producer.Tick` | CANopenNode-test/upstream/CANopenLinux/CANopenNode/301/CO_Emergency.c:567-569 | The inhibit timer follows the time until it has reached its limit, or wraps around |
| `Emergency.Producer.WorkOffOverflow` | CANopenNode-test/upstream/CANopenLinux/CANopenNode/301/CO_Emergency.c:597-605 | After a send the overflow mark moves on, and its own message is accepted whenever the condition changes |
| `Emergency.Producer.ReadHistory` | CANopenNode-test/upstream/CANopenLinux/CANopenNode/301/CO_Emergency.c:159-192 | Sub-index k up to the count is the k-th newest message since the last clear, across wrap-around; the index never leaves the ring |
| `Emergency.Producer.WriteHistory` | CANopenNode-test/upstream/CANopenLinux/CANopenNode/301/CO_Emergency.c:195-211 | A zero empties the history and nothing else; pending messages are still sent |
| `Emergency.HoldsPush` | CANopenNode-test/upstream/CANopenLinux/CANopenNode/301/CO_Emergency.c:688-706 | After a write at any position the ring still holds the latest messages of the log |
| `Pdo.ProcessData.ConfigMap` | CANopenNode-test/upstream/CANopenLinux/CANopenNode/301/CO_PDO.c:82-137 | The checks in their order agree with `Judge`: an entry is set up if and only if length, existence, access and alignment allow it, and is left unchanged otherwise |
| `Pdo.EntryByFields` | CANopenNode-test/upstream/CANopenLinux/CANopenNode/301/CO_PDO.c:82-120 | Which parameters are taken and with which refusal otherwise, by their sixteen, eight and eight bits and the object they name |
| `Pdo.AllowedIdentifiers` | CANopenNode-test/upstream/CANopenLinux/CANopenNode/301/CO_driver.h:420-423 | The identifiers a PDO may use |
| `Pdo.ProcessData.InitMapping` | CANopenNode-test/upstream/CANopenLinux/CANopenNode/301/CO_PDO.c:152-207 | After start-up the mapping invariant holds if and only if at most eight objects are mapped and no sub-entry is absent; the first erroneous parameter is reported |
| `Pdo.NineMappedObjects` | CANopenNode-test/upstream/CANopenLinux/CANopenNode/301/CO_PDO.c:155-204 | Start-up accepts a count of nine, and the ninth entry in force does not exist |
| `Pdo.AbsentEntryComesIntoForce` | CANopenNode-test/upstream/CANopenLinux/CANopenNode/301/CO_PDO.c:235-262 | A count write accepts an entry that was never set up, and it is then in force |
| `Pdo.RestartKeepsTheMapping` | CANopenNode-test/upstream/CANopenLinux/CANopenNode/301/CO_PDO.c:152-272 | The stored parameters describe the mapping: starting again from them gives the same entries, and with none erroneous the same mapping |
| `Pdo.ProcessData.Start` | CANopenNode-test/upstream/CANopenLinux/CANopenNode/301/CO_PDO.c:1047-1076 | Enabled at start-up if and only if there is a mapping in force, an identifier and a CAN buffer; the default identifier gets the node number; a wrong mapping is reported |
| `Pdo.ProcessData.WriteMapping` | CANopenNode-test/upstream/CANopenLinux/CANopenNode/301/CO_PDO.c:217-272 | Every write keeps the invariant, stores what it takes and gives the exact answer: bad sub-index, in use, or the checks of an entry or of a count |
| `Pdo.ProcessData.WriteCobId` | CANopenNode-test/upstream/CANopenLinux/CANopenNode/301/CO_PDO.c:889-924 | Refused, failed for want of a buffer, or done, each if and only if; enabled only with a mapping in force, and then with the frame length of that mapping |
| `Pdo.ProcessData.Send` | CANopenNode-test/upstream/CANopenLinux/CANopenNode/301/CO_PDO.c:1127-1219 | The length check cannot fail, and the frame is the concatenation of the mapped prefixes |
| `Pdo.ProcessData.Receive` | CANopenNode-test/upstream/CANopenLinux/CANopenNode/301/CO_PDO.c:737-814 | The length check cannot fail, and the invariant survives the writes |
| `Pdo.EntryGetsItsBytes` | CANopenNode-test/upstream/CANopenLinux/CANopenNode/301/CO_PDO.c:757-801 | A mapped variable gets its own slice of the frame, zero-filled, its bytes past the eighth kept |
| `Pdo.OthersKeepTheirValue` | CANopenNode-test/upstream/CANopenLinux/CANopenNode/301/CO_PDO.c:750-801 | A variable no entry names is not changed |
| `Pdo.FrameSlice` | CANopenNode-test/upstream/CANopenLinux/CANopenNode/301/CO_PDO.c:1148-1194 | Each entry finds its bytes in the frame behind those of the entries before it |
| `Pdo.TransportIsFaithful` | CANopenNode-test/upstream/CANopenLinux/CANopenNode/301/CO_PDO.c:1138-1219 | Packed by one node and unpacked by another with the same entry lengths, every variable receives the bytes of its counterpart |
| `Tpdo.Schedule.constructor` | CANopenNode-test/upstream/CANopenLinux/CANopenNode/301/CO_PDO.c:1018-1036 | A reserved transmission type becomes event-driven; the first frame is requested |
| `Tpdo.Schedule.WriteType` | CANopenNode-test/upstream/CANopenLinux/CANopenNode/301/CO_PDO.c:926-949 | A valid type restarts the schedule, a reserved one changes nothing at all |
| `Tpdo.Schedule.Process` | CANopenNode-test/upstream/CANopenLinux/CANopenNode/301/CO_PDO.c:1228-1354 | Event-driven: sent if and only if wanted and at least the inhibit time since the last; acyclic: on the next SYNC when wanted; cyclic type n: on SYNC number first + k*n and no other; inactive: everything resets |
| `Tpdo.Schedule.OnSync` | CANopenNode-test/upstream/CANopenLinux/CANopenNode/301/CO_PDO.c:1305-1338 | Where the first frame falls (SYNC n/2 + 1, or the start value), and every n-th SYNC after it |
| `Tpdo.Schedule.Send` | CANopenNode-test/upstream/CANopenLinux/CANopenNode/301/CO_PDO.c:1221-1226 | A send clears the request and winds both timers |
| `OdAccess.Stream.Read` | CANopenNode-test/upstream/CANopenLinux/CANopenNode/301/CO_ODinterface.c:25-63 | Reading in memory is reading on values, missing data included |
| `OdAccess.Stream.Write` | CANopenNode-test/upstream/CANopenLinux/CANopenNode/301/CO_ODinterface.c:66-117 | Writing in memory is writing on values, in place |
| `OdAccess.ReadingStaysGood` | CANopenNode-test/upstream/CANopenLinux/CANopenNode/301/CO_ODinterface.c:37-62 | From a good offset reading never refuses and leaves the variable alone; it is done, with the rest of the bytes and the offset at 0, exactly when the buffer reaches the end, and partial otherwise |
| `OdAccess.WritingStaysGood` | CANopenNode-test/upstream/CANopenLinux/CANopenNode/301/CO_ODinterface.c:77-116 | Done exactly when the chunk ends with the variable, partial when before it; too long a chunk, and only that, is refused, with none of its bytes written and the offset back at 0; counts of bytes written are exact |
| `OdAccess.WritesLand` | CANopenNode-test/upstream/CANopenLinux/CANopenNode/301/CO_ODinterface.c:80-116 | Chunks land one behind the other |
| `OdAccess.ReadsFollow` | CANopenNode-test/upstream/CANopenLinux/CANopenNode/301/CO_ODinterface.c:40-61 | Pieces read follow each other |
| `OdAccess.ChunkedRoundTrip` | CANopenNode-test/upstream/CANopenLinux/CANopenNode/301/CO_ODinterface.c:25-117 | Any cutting on the way in and any on the way out gives the value back, with the offset at 0 |
| `OdAccess.OverlongKeepsThePrefix` | CANopenNode-test/upstream/CANopenLinux/CANopenNode/301/CO_ODinterface.c:103-106 | A refused chunk leaves what earlier chunks wrote, so the variable is unchanged if and only if they wrote what it held: chunked writes are not atomic |
| `OdAccess.Find` | CANopenNode-test/upstream/CANopenLinux/CANopenNode/301/CO_ODinterface.c:140-174 | What is found is right on any list; on a strictly sorted one an index is found if and only if present, within floor(log2(size)) passes |
| `OdAccess.Log2IsTheLogarithm` | CANopenNode-test/upstream/CANopenLinux/CANopenNode/301/CO_ODinterface.c:148-150 | The bound on the passes is the logarithm of the size, rounded down |

## Left out

- src/asynch.rs: the tokio and CAN bus glue; in particular nothing is claimed about a client abort frame reaching the bus.
- Allocation failure in the Rust client (`reserve`), `Display` implementations, logging.
- `poll_timeout` and `is_idle`: they only return a field.
- Leftovers.WriteIsSafeIff: for payloads below 2^32 bytes, the sizes the wire can carry; a longer one from an empty bus is covered by `Channel.DownloadIsSafe`.
- Leftovers.ReadIsSafeIff: left-over requests, and a server that is not idle, are considered for short writes only (`AnyBus`); for a value the object already holds that result gives a sufficient condition and a family of failures, not one exact condition.
- BlockDownload.Sender.constructor: changing the indicated size after the start, and local transfers, are not modelled.
- BlockDownload, BlockUpload: the codes of aborts; transfer timeouts, aborts received from the server and aborts by the application only move the machine to its aborted state, and are not separate methods; block time-outs are an event.
- Fifo: the checksum step is any function of a checksum and a byte; that it is CRC-16 CCITT is not used. The ASCII command helpers of the same file are not modelled, nor null pointers.
- The C SDO client outside block mode, and the C SDO server but for its rule of taking block segments in order.
- Emergency.Producer.Process: modelled with the inhibit time compiled in; without it, the time is zero. The CAN error status part and the computation of the error register come before it and are a parameter; callbacks and the consumer are left out.
- Pdo: big-endian swapping, custom read and write extensions of mapped variables, the receive buffers and length errors of received PDOs, RPDO timeouts, and the variant without IO access.
- Tpdo.Schedule.Process: writes to inhibit time, event time and SYNC start value while running are left out; the request flags of mapped variables are one parameter.
- OdAccess: sub-entry lookup, attributes and extensions.
- NMT, heartbeat, node guarding, SYNC and TIME producers, storage, the Linux driver, generated object dictionary tables: timers, flags, system calls and data.
