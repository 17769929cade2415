# Lanos core: a verified model

Lanos is a LAN file-transfer daemon. This project models the logic of its Go `core/` tree that is hard to get
right by reading, and proves what the design promises about it. Verify with Dafny 4.11:

    dafny verify dfyconfig.toml

Code that changes state is modelled by classes and methods with the source's fields and loops, and each method states
its whole new state: as a function of the old one for the queue, the multiplexer, the encrypted connection, the chunk
writer and device presence, field by field for the manager and the cancel registry. The theorems are about those
functions: over every run of a step system where threads, crashes or two endpoints are involved, over every input
elsewhere. The steps of `CancelProtocol` stand for the critical sections of the manager and the registry, and are shown to
move the statuses and the registry's entries as the methods do (`Manager.StatusesMoveAlike`, `Manager.CancelMovesAlike`
and its companions).

| area | files |
|---|---|
| Per-device scheduler | `QueueState`, `QueueProtocol`, `QueueTheorems` (all threads as steps), `Queue` (the objects) |
| Stream multiplexer and frames | `MuxState`, `MuxProtocol`, `MuxTheorems`, `MuxInbound` and `MuxOutbound` (what comes in and goes out), `Mux`, `FrameCodec` |
| Chunked transfer with resume | `ChunkState`, `ChunkProtocol` (steps and crashes), `ChunkWriter`, `ChunkTransfer` (end to end) |
| Header and body over encrypted frames | `EncryptedConn`, `HeaderBody` |
| Cancellation | `CancelProtocol` (threads over two locks), `Manager` (the objects), `SendFile` (the order of a sending thread's steps) |
| Address selection | `Address`, `AddrText`, `AddrSelect`, `StableSort`, `AddrAnswer` (the whole call) |
| Received paths | `Sanitize`, `SavePath` |
| URI, TXT record, LIKE search | `ConnectUri`, `Txt`, `Percent`, `Like` |
| Device presence and its event stream | `EventLog`, `EventClock` (with time), `Announced` (what the map says), `Coalesce`, `ClientView`, `Presence` (the objects) |
| Shared | `Bytes`, `Text`, `Parts`, `MapSum` |

## What the proofs found

Where the code and its documentation or comments differ, the model follows the code. These statements are proved.

- `pickSource` keeps the *shorter* common prefix, against the comment at `core/net/addrselect.go:237`. Rule 8 of section 5
  of RFC 6724 is met exactly when all sources in the running share equally many bits (`LongestMatchIff`).
- The rule about global scope in `compareSource` never decides anything (`CompareSourceIsByKey`).
- `SaveFile` returns success for a reader that ends with the bare `io.EOF`, and never over an `EncryptedConn`, whose end
  arrives wrapped. The bytes saved are right all the same (`HeaderBody.SaveFile`, `EncryptedConn.EndIsWrapped`).
- The device name of a connect URI is decoded twice, so a name with a percent or a plus sign does not survive, and a zone
  with `&`, `;` or `+` does not either; everything else does (`UriRoundTripIff`).
- `BuildTXT` accepts any non-empty hash, `ParseTXT` only 32 lowercase hexadecimal digits (`AnnouncementRoundTripIff`).
- Coalescing keys by type and device, so a burst in which a device comes, goes and comes back would be lost. But a device
  goes offline only more than 30 seconds after its last announcement (`OfflineIsLate`), so a window of up to 30 seconds
  never changes which devices a client shows (`PresenceIsKept`), and 31 seconds can (`ThirtyIsSharp`). Within such a window
  copies of the records could still show stale fields, after an update, offline, online and another update
  (`CopiesWouldBeStale`). The source does not show them, because its online event points to the live record
  (`core/discovery/discovery.go:222`): then each flush brings the client exactly to the device map (`ClientShowsMapNow`).
- `SanitizeRelativePath` is idempotent exactly if no segment of the input is a name with white space beyond ASCII behind
  it that final dots and spaces hide (`IdempotentIff`); on ASCII it always is (`IdempotentOnAscii`).
- `JoinSavePath` refuses every file when the save directory is the root, and no file otherwise (`JoinSavePath`, `ChosenIsBelow`).
- `ChunkCount` is right exactly up to the size at which its 64-bit addition wraps (`ChunkCountExact`).
- After 2^31 Opens a stream ID comes round again and `Open` overwrites a live stream (`WrapOverwritesLiveStream`); below that
  number no ID is ever taken twice (`OpenTakesFreshID`).
- `DecodeFrame` accepts headers that `EncodeFrame` does not write, in two places only (`CanonicalIff`).
- Retry and resume can pass the limit on active transfers; nothing else can (`LimitKeptIff`, `RetryPassesLimit`).
- The chunk receiver accepts a manifest whose count differs from the number of its hashes, and panics on a chunk past them
  (`ChunkWriter.WriteChunk`, result `Panic`); a negative count panics in the constructor.

## Model

| member | source | states |
|---|---|---|
| `QueueProtocol.StepKeeps` | core/transfer/queue.go:134-305 | Every step of every thread (enqueue, signal, pop, start, release, done, close, broadcast) keeps the whole-queue invariant. |
| `QueueProtocol.Reachable` | core/transfer/queue.go:106-305 | The invariant holds at every point of every run from a new queue. |
| `QueueTheorems.NeverStranded` | core/transfer/queue.go:138-174 | If the dispatcher sleeps while the queue is closed or some task is runnable, some thread stands between its unlock and its Signal or Broadcast. |
| `QueueTheorems.SlotsAreExact` | core/transfer/queue.go:66-124 | A device's counters equal its popped and unreleased tasks per direction and stay within the caps the queue was made with, four where none was asked for; before Close every map entry has work. |
| `QueueTheorems.CapIsKept` | core/transfer/queue.go:106-124 | At no time do more tasks of a peer hold a slot in one direction than the number given to NewQueue, or four for a non-positive one. |
| `QueueTheorems.CapsAreAsked` | core/transfer/queue.go:106-124 | The caps never change. |
| `QueueTheorems.ReleaseFindsItsEntry` | core/transfer/queue.go:235-246 | The entry releaseSlot finds is the very object its task was counted in, with a positive counter, under no other peer. |
| `QueueTheorems.WaitGroupNeverNegative` | core/transfer/queue.go:149-305 | The WaitGroup equals pending, in-flight, finishing and abandoned tasks, is never negative, and at zero every slot is free and, before Close, the map is empty. |
| `QueueTheorems.ZeroMeansFree` | core/transfer/queue.go:279-281 | A counter at zero leaves nothing executing, starting or finishing. |
| `QueueTheorems.FirstInFirstOut` | core/transfer/queue.go:204-219 | Per device and direction, dispatched tasks followed by pending ones are the enqueued ones in order until Close; after it dispatched is a prefix. |
| `QueueTheorems.WorkConserved` | core/transfer/queue.go:178-219 | hasRunnable holds exactly when a pop is possible; otherwise every pending task's direction is at the cap that was asked for. |
| `QueueTheorems.EffortFalls` | core/transfer/queue.go:158-246 | Every step the queue takes by itself uses up a finite measure. |
| `QueueTheorems.DrainIsBounded` | core/transfer/queue.go:158-246 | A run of internal steps is no longer than the measure at its start. |
| `QueueTheorems.StuckMeansDrained` | core/transfer/queue.go:158-281 | When no internal step is left, Wait returns; and if the queue was not closed, everything enqueued has been dispatched and the map is empty. |
| `Queue.Queue.constructor` | core/transfer/queue.go:106-124 | A new queue is empty and open, with the caps given, or four for non-positive ones. |
| `Queue.DeviceQueue.Adjust` | core/transfer/queue.go:66-87 | Changes the counter of one direction and nothing else. |
| `Queue.Queue.Enqueue` | core/transfer/queue.go:134-153 | Refuses a nil task or a closed queue without effect; else appends to the peer's list, creating it if needed, and raises the WaitGroup. |
| `Queue.Queue.EntryFor` | core/transfer/queue.go:143-147 | Finds the peer's entry, or adds one empty new object. |
| `Queue.Queue.FirstIn` | core/transfer/queue.go:188-199 | The position of the first task whose direction has a free slot. |
| `Queue.Queue.AnyRunnable` | core/transfer/queue.go:178-185 | Is true exactly if some entry has a runnable task. |
| `Queue.Queue.PopRunnable` | core/transfer/queue.go:204-219 | Removes the first runnable task of some entry and counts it; returns nothing exactly if nothing is runnable, and then changes nothing. |
| `Queue.Queue.DispatchPass` | core/transfer/queue.go:158-174 | One pass under the lock is the protocol step Sleep, Exit or Pop. |
| `Queue.Queue.ReleaseSlot` | core/transfer/queue.go:235-246 | Lowers the counter and drops the entry once it is drained. |
| `Queue.Queue.AbandonAll` | core/transfer/queue.go:294-298 | Empties every pending list and counts what was in them. |
| `Queue.Queue.CloseLocked` | core/transfer/queue.go:286-299 | The first call closes and abandons; later calls change nothing. |
| `MuxTheorems.StepKeeps` | core/transport/stream.go:69-304 | Every step of either endpoint keeps the invariant of both, as long as it opens fewer than 2^31 streams. |
| `MuxTheorems.Reachable` | core/transport/stream.go:51-304 | The invariant holds throughout every run of two connected muxes. |
| `MuxTheorems.DemultiplexInOrder` | core/transport/stream.go:83-104 | What a stream has returned is a prefix of what its peer wrote with its ID since the stream was registered; an inbound stream starts with the META that opened it. |
| `MuxTheorems.OpenStreamsLoseNothing` | core/transport/stream.go:215-240 | For an open stream, frames returned, buffered and in the reader's hand are exactly the frames read with its ID. |
| `MuxTheorems.WireDecodes` | core/transport/stream.go:132-146 | The bytes of what a mux has sent decode to exactly those frames, and after any number of them the reader stands before the next. |
| `MuxInbound.MetaOpensStream` | core/transport/stream.go:83-104 | Wherever the read loop has passed the first frame of an ID on the wire and it is a META, a stream with that ID stands, registered at that frame, unless this end opened the ID itself, which it never does with the other end's parity. |
| `MuxInbound.AcceptYieldsEach` | core/transport/stream.go:89-129 | Accept returns the streams the peer opened one by one, in the order of their METAs, none twice; while the mux is open none is missing from those returned, waiting or being offered. |
| `MuxInbound.BuffersAreBounded` | core/transport/stream.go:29-63 | No stream buffers more than 128 frames and no more than 16 streams wait for Accept. |
| `MuxOutbound.SendsAreConserved` | core/transport/stream.go:132-146 | Every frame a stream was asked to send, with the ID of that stream, is as often on the wire, waiting for the lock or failed as it was asked for. |
| `MuxOutbound.ReturnedWasAsked` | core/transport/stream.go:228-247 | Every frame a stream returns was given to SendFrame of a stream with the same ID at the other end. |
| `MuxOutbound.ClosedOpensNothing` | core/transport/stream.go:107-112 | A mux that has shut down stays closed and opens no stream. |
| `MuxTheorems.OpenTakesFreshID` | core/transport/stream.go:107-119 | The ID Open takes has its end's parity and is in no table, on no wire and in no sender's hand. |
| `MuxTheorems.WrapOverwritesLiveStream` | core/transport/stream.go:107-119 | After 2^31 Opens the next one puts a new object over a live stream. |
| `Mux.Mux.constructor` | core/transport/stream.go:51-64 | A new mux has no streams; its first ID is 0 or 1 by role. |
| `Mux.Mux.Register` | core/transport/stream.go:107-119 | A new object goes into the table under its ID, over whatever was there. |
| `Mux.Mux.Open` | core/transport/stream.go:107-119 | Refused once closed; else takes nextID, moves it by two and registers. |
| `Mux.Mux.Lookup` | core/transport/stream.go:83-104 | A known ID gets the frame, an unknown META opens an inbound stream, anything else is dropped. |
| `Mux.Mux.Deliver` | core/transport/stream.go:215-225 | A closed stream drops the frame, a full one makes the reader wait, an open one buffers it. |
| `Mux.Mux.Close` | core/transport/stream.go:294-304 | Closes once and takes the ID out of the table. |
| `Mux.CloseIsTwoSteps` | core/transport/stream.go:294-304 | Close is the marking and the removal of the protocol, one after the other. |
| `Mux.Mux.RecvFrame` | core/transport/stream.go:228-240 | Returns the oldest buffered frame; an END, CANCEL or ERROR frame, and no other, closes the stream behind itself. |
| `Mux.Mux.Shutdown` | core/transport/stream.go:162-181 | Marks the mux and closes every stream that the table held at that moment. |
| `Mux.Mux.SendFrame` | core/transport/stream.go:242-247 | A whole encoding reaches the wire or nothing does; a write that fails shuts the mux down. |
| `FrameCodec.DecodeEncoding` | core/transport/frame.go:56-105 | A frame decodes from its encoding, leaving what follows. |
| `FrameCodec.FieldsAt` | core/transport/frame.go:56-75 | Stream ID, type, two zeros, length, checksum and a zero stand at their offsets, and the payload behind them. |
| `Bytes.BigEndian` | core/transport/frame.go:61-65 | A 32-bit number is written with its most significant byte first. |
| `FrameCodec.ProperPrefixFails` | core/transport/frame.go:78-105 | A cut-off encoding never decodes, and the error says whether header or payload is short. |
| `FrameCodec.DecodeManyEncodings` | core/transport/frame.go:56-105 | Any list of frames is read back from the stream of their encodings. |
| `FrameCodec.CutWireKeepsWholeFrames` | core/transport/frame.go:78-105 | A wire cut inside a frame yields exactly the whole frames before the cut. |
| `FrameCodec.CanonicalIff` | core/transport/frame.go:78-105 | Accepted bytes are an encoding exactly if the reserved last byte is zero and an empty payload carries its checksum. |
| `FrameCodec.ReservedByteIsIgnored` | core/transport/frame.go:78-105 | A header with its last byte set decodes to the frame and is not its encoding. |
| `FrameCodec.MakeHeader` | core/transport/frame.go:60-68 | The header array is filled in place with the fields big-endian at their offsets. |
| `FrameCodec.EncodeFrame` | core/transport/frame.go:56-75 | Writes the whole encoding, or nothing if the payload is over the limit. |
| `FrameCodec.DecodeFrame` | core/transport/frame.go:78-105 | Reads exactly one frame or reports the first thing wrong. |
| `ChunkState.ChunkCountExact` | core/transfer/chunk.go:55-60 | The count is the size divided by the chunk size, rounded up, exactly if the 64-bit addition does not wrap. |
| `ChunkState.SplitConcat` | core/transfer/chunk.go:113-135 | The chunks of a file concatenate to it. |
| `ChunkState.SplitSizes` | core/transfer/chunk.go:113-135 | Every chunk but the last is full and the last holds the rest. |
| `ChunkState.CountOfFile` | core/transfer/chunk.go:55-60 | ChunkCount is the number of chunks. |
| `ChunkState.ChunkReader.Next` | core/transfer/chunk.go:113-135 | Returns the next chunk with its index and hash, EOF at the end, an error if the file is shorter than it was. |
| `ChunkState.ChunkReader.BuildManifest` | core/transfer/chunk.go:138-163 | The manifest carries task and file name as they were given; from the start of the file it lists exactly its chunks' hashes, count and size. |
| `ChunkState.ExpectedSizesMatch` | core/transfer/chunk.go:268-275 | The receiver's size check passes for every chunk of the file the manifest describes. |
| `ChunkProtocol.StepKeeps` | core/transfer/chunk.go:190-289 | Every sub-step of loading, writing and saving keeps the invariant, crashes included. |
| `ChunkProtocol.Reachable` | core/transfer/chunk.go:190-289 | The invariant holds in every run of writes, crashes and restarts. |
| `ChunkProtocol.CrashSafe` | core/transfer/chunk.go:206-289 | A flag set on disk or in memory names a cached chunk of the right hash and size, which is 4 MiB or for the last chunk the rest; saved flags are in memory; receivedN counts the flags. |
| `ChunkProtocol.ResumeKeepsSaved` | core/transfer/chunk.go:206-225 | A restart adopts exactly the saved flags. |
| `ChunkProtocol.CompleteIsTheFile` | core/transfer/chunk.go:293-332 | With all flags set, the cached chunks join to the sender's file. |
| `ChunkWriter.ChunkWriter.constructor` | core/transfer/chunk.go:190-225 | A new writer adopts the saved flags exactly if task and length match, else has none, and starts in the protocol's invariant if the disk is in order. |
| `ChunkWriter.ChunkWriter.SaveMeta` | core/transfer/chunk.go:227-238 | The meta file is replaced as a whole. |
| `ChunkWriter.ChunkWriter.WriteChunk` | core/transfer/chunk.go:259-289 | Refuses a bad index, a duplicate, a wrong hash or size, in that order and without effect, and panics on an index past the hashes; else stores, flags, counts and saves; keeps the protocol's invariant. |
| `ChunkWriter.WriteChunkIsARun` | core/transfer/chunk.go:259-289 | A successful call is a run of protocol steps. |
| `ChunkWriter.ChunkWriter.Die` | core/transfer/chunk.go:227-289 | What the disk holds after a death inside the call; it is in order if it was before. |
| `ChunkWriter.DeathIsARun` | core/transfer/chunk.go:227-289 | A death in the chunk file, in the tmp file or before its rename is a run of protocol steps with a crash at its end. |
| `ChunkProtocol.LeadsKeepsInv` | core/transfer/chunk.go:190-289 | Any run of steps from a state in the invariant ends in one. |
| `ChunkWriter.AcceptsOnlyTheChunk` | core/transfer/chunk.go:259-275 | Data is accepted for an index exactly if it is the sender's chunk of that index. |
| `ChunkWriter.ChunkWriter.Assemble` | core/transfer/chunk.go:293-332 | Incomplete exactly if a flag is missing; in a complete state that is in the invariant the result is the sender's file and no other error is possible. |
| `ChunkTransfer.Receive` | core/transfer/chunk.go:190-332 | Whatever is delivered, wherever the process dies and however often it restarts: the result is the file the manifest describes if each of its chunks was delivered, and Incomplete if not. |
| `ChunkTransfer.Transfer` | core/transfer/chunk.go:88-332 | From the sender's file to the receiver's: Done with exactly that file if and only if every chunk of it was delivered whole at least once. |
| `ChunkWriter.ChunkWriter.Cleanup` | core/transfer/chunk.go:335-340 | Removes chunks and meta file. |
| `EncryptedConn.Sender.Write` | core/net/dial.go:118-141 | Each Write is one encrypted frame under the next message number. |
| `EncryptedConn.Receiver.ReadFrame` | core/net/dial.go:143-157 | One length-prefixed frame, or the length over the limit, or the wrapped end of the stream. |
| `EncryptedConn.Receiver.Read` | core/net/dial.go:97-116 | The left-over of a frame first, else one new frame; never bytes of two frames. |
| `EncryptedConn.EndIsWrapped` | core/net/dial.go:143-157 | A Read never fails with the bare io.EOF; at the end of the stream it fails with an error that wraps it. |
| `EncryptedConn.ReadTransmits` | core/net/dial.go:97-116 | On a stream of valid frames, the last of them possibly cut, a Read fails only at its end and returns the next bytes of one frame. |
| `EncryptedConn.ReadManyConserves` | core/net/dial.go:97-116 | For every sequence of buffer sizes, bytes read followed by bytes pending are the bytes that were pending. |
| `EncryptedConn.FramesAreNumbered` | core/net/dial.go:118-141 | Every Write is on the wire under the number of Writes before it, behind the length of its ciphertext. |
| `HeaderBody.HeaderRoundTripIff` | core/receive/server.go:170-210 | A header comes back as it was sent exactly if ID and name have no white space at their edges and the name is 1 to 4096 bytes. |
| `HeaderBody.ParseOfHeader` | core/receive/server.go:170-210 | The fields come back trimmed, or the name is refused. |
| `HeaderBody.SendHeader` | core/usecase/send.go:127-140 | A name with a line break is refused; else one frame holds the four lines. |
| `HeaderBody.StreamFile` | core/usecase/send.go:142-178 | The body frames concatenate to the part of the file read before the first turn that finds the context done, and to all of it exactly if no turn does. |
| `HeaderBody.LineReader.Pull` | core/receive/server.go:170-185 | One read into the throw-away buffer loses nothing and takes nothing of the body while header bytes are left. |
| `HeaderBody.LineReader.ReadLine` | core/receive/server.go:173-200 | Returns the bytes up to the next line break, which lie before everything still unread. |
| `HeaderBody.ReadHeader` | core/receive/server.go:170-210 | Four lines in the first frame are a header exactly if the first trims to LANOS_FILEv1, the third to a numeral from 0 to 2^63-1 and the fourth to 1 to 4096 bytes; the first of them that is wrong decides the error; and the connection then holds exactly the body. |
| `HeaderBody.LinesAreJudged` | core/receive/server.go:177-210 | The same of any four lines. |
| `Text.ParseIntIff` | core/receive/server.go:192-198 | ParseInt reads exactly the numerals: a sign or none, zeros, and the digits of a number of 64 bits, with its value. |
| `Text.TrimIsMiddle` | core/receive/server.go:177-206 | Trimming takes white-space characters from both ends and nothing else. |
| `HeaderBody.SaveFile` | core/receive/server.go:223-251 | A reader that ends with io.EOF is saved whole, with success or a size mismatch; over an EncryptedConn exactly the body bytes are saved and the result is always a failure. |
| `HeaderBody.SendAndReceive` | core/usecase/send.go:104-124 | For every file, the file saved is the file sent and the header's fields arrive trimmed. |
| `HeaderBody.SendAndLose` | core/usecase/send.go:104-124 | For every cut of the connection and every cancellation: without a whole header nothing is saved; else the file saved is the body of the whole frames before the cut, a prefix of the file, and the result is a failure. |
| `EncryptedConn.CutWireHolds` | core/net/dial.go:132-157 | A wire cut anywhere holds the whole frames before the cut and a part of at most one more. |
| `CancelProtocol.StepKeeps` | core/usecase/send.go:73-124 | Every step of Execute, Manager.Cancel and the registry's callers keeps the invariant. |
| `CancelProtocol.Reachable` | core/usecase/send.go:73-124 | The invariant holds in every interleaving. |
| `CancelProtocol.CancelledStays` | core/transfer/manager.go:124-142 | Once cancelled, a transfer is cancelled in every continuation. |
| `CancelProtocol.CancelIsNeverLost` | core/transfer/manager.go:186-205 | After Manager.Cancel returned, Execute has not connected, was refused, has left, or its context is done, unless another caller took the entry. |
| `CancelProtocol.CancelAlone` | core/transfer/manager.go:186-205 | By itself, Manager.Cancel takes a registered transfer that is not completed, failed or cancelled to the end in four steps: cancelled, out of the registry, context done, cleaned once. |
| `CancelProtocol.TableByEntry` | core/transfer/state.go:25-53 | The transition table by the status entered: failing and cancelling from every status but completed, failed and cancelled; connecting from pending, failed and awaiting-resume; and so on. |
| `CancelProtocol.StatusMoves` | core/transfer/manager.go:84-205 | No step of any thread moves a status but along the table, and a new transfer is pending. |
| `CancelProtocol.WayOfTransfer` | core/transfer/state.go:15-53 | In every run a transfer began pending, one that transfers or is complete was connecting before, and a complete one was transferring. |
| `CancelProtocol.ExecuteAlone` | core/usecase/send.go:51-124 | Seven steps of Execute by itself take a pending transfer to completed, with its context done, its entry taken out and nothing cleaned. |
| `CancelProtocol.ConnectIsRefusedIff` | core/usecase/send.go:80-83 | Execute leaves at its move to connecting exactly if the transfer is cancelled, complete or transferring; else it dials. |
| `CancelProtocol.TakerCanFinish` | core/transfer/cancel.go:66-82 | The thread that took an entry can end the context with its next step. |
| `CancelProtocol.CleanupIsSingle` | core/transfer/cancel.go:53-156 | An entry leaves the map at most once; its cleanup runs at most once and never after Complete. |
| `CancelProtocol.OneHolder` | core/transfer/cancel.go:142-156 | No two threads hold the same entry, so runCleanup needs no lock. |
| `SendFile.Execute` | core/usecase/send.go:51-124 | An unknown transfer or a full manager changes nothing; else the transfer ends where dialling, header and body put it, or stays if it may not connect; no entry stays in the registry on any path. |
| `SendFile.Run` | core/usecase/send.go:73-124 | The same from registration on; the call's own context is done when it returns. |
| `SendFile.Work` | core/usecase/send.go:85-124 | From connecting on, every move of the status is one the table allows; a file sent has its full byte count. |
| `SendFile.SendAll` | core/usecase/send.go:104-119 | A name with a line break sends nothing and fails; else the header goes out first, then the file, all of it unless the context is done at some turn. |
| `SendFile.SentMeansSent` | core/usecase/send.go:104-124 | A successful call has put the header and the whole file on the connection. |
| `SendFile.HowItEnds` | core/usecase/send.go:80-124 | Refused exactly from transferring, completed and cancelled; sent, cancelled or failed as dialling and sending went, and the status says the same. |
| `Manager.StatusesMoveAlike` | core/transfer/manager.go:84-205 | The statuses move in the manager's methods as in the protocol's steps. |
| `Manager.CancelMovesAlike` | core/transfer/cancel.go:66-82 | By itself the registry's Cancel is TakeToCancel, CallCancel and RunCleanup: the entry leaves what is held, with its context done and its cleanup run. |
| `Manager.CleanupMovesAlike` | core/transfer/cancel.go:87-99 | Cleanup is TakeToClean and RunCleanup. |
| `Manager.CompleteMovesAlike` | core/transfer/cancel.go:104-108 | Complete is ExecComplete. |
| `Manager.RegisterMovesAlike` | core/transfer/cancel.go:53-61 | Register is ForeignRegister, and RunCleanup for the entry it replaced. |
| `Manager.RetryPassesLimit` | core/transfer/state.go:43-50 | A retry while another transfer takes the only slot makes two active. |
| `Manager.StateMachine.Transition` | core/transfer/state.go:25-98 | Moves exactly from the statuses that the table lets lead to the new one, and never from completed or cancelled. |
| `Manager.TerminalIff` | core/transfer/state.go:25-77 | A state is without outgoing moves exactly if it is completed or cancelled, which is exactly if no update changes it. |
| `Manager.Manager.constructor` | core/transfer/manager.go:73-82 | An empty manager, with the default limit for a non-positive one. |
| `Manager.Manager.ActiveCount` | core/transfer/manager.go:173-184 | Counts the pending, connecting and transferring transfers. |
| `Manager.Manager.Create` | core/transfer/manager.go:84-102 | Admits exactly if ActiveCount is below the limit and never passes it; else changes nothing. |
| `Manager.LimitKeptIff` | core/transfer/manager.go:124-142 | A status update keeps the limit unless it is a retry or resume with all slots taken. |
| `Manager.SlotMoves` | core/transfer/manager.go:173-183 | A move frees a slot exactly if it ends or suspends a transfer that is pending, connecting or transferring, and takes one exactly if it connects a failed or suspended one. |
| `Manager.NewTakesSlot` | core/transfer/manager.go:84-101 | A new transfer takes one slot. |
| `Manager.Manager.UpdateStatus` | core/transfer/manager.go:124-142 | Moves along the table or stays; status and state machine never disagree; the message is replaced only if given. |
| `Manager.Manager.UpdateProgress` | core/transfer/manager.go:144-154 | Changes the byte count of one transfer and no status. |
| `Manager.Manager.Remove` | core/transfer/manager.go:156-164 | Takes the transfer out of the map. |
| `Manager.Manager.Cancel` | core/transfer/manager.go:186-205 | Succeeds exactly if the transfer is known and not completed, failed or cancelled; a refused call changes nothing and does not ask the registry; the other cancels the status, ends the context and cleans once. |
| `Manager.CancelRegistry.Register` | core/transfer/cancel.go:53-61 | A replaced entry is cleaned, not cancelled. |
| `Manager.CancelRegistry.Cancel` | core/transfer/cancel.go:66-82 | The entry leaves the map, its context ends, its cleanup has run once. |
| `Manager.CancelRegistry.Cleanup` | core/transfer/cancel.go:87-99 | The entry leaves the map and is cleaned, not cancelled. |
| `Manager.CancelRegistry.Complete` | core/transfer/cancel.go:104-108 | The entry leaves the map and nothing else happens to it. |
| `Manager.CancelRegistry.CancelAll` | core/transfer/cancel.go:127-140 | Every entry is cancelled and cleaned, each once, and the map is empty. |
| `Manager.CancelEntry.RunCleanup` | core/transfer/cancel.go:143-156 | The callback runs the first time only. |
| `Address.CountCommonPrefix` | core/net/addrselect.go:244-266 | The byte and mask loops count the leading equal bits. |
| `Address.BitsInByte` | core/net/addrselect.go:256-262 | The mask loop finds the first differing bit. |
| `Address.LeadingAtLeastIff` | core/net/addrselect.go:244-266 | The count is at least m exactly if the first m bits agree. |
| `Address.LeadingSymmetric` | core/net/addrselect.go:244-266 | The count is symmetric. |
| `Address.LeadingIsAllIff` | core/net/addrselect.go:244-266 | All bits count exactly if the addresses are equal. |
| `Address.Ultrametric` | core/net/addrselect.go:244-266 | Among three addresses the two pairs that agree least agree equally far. |
| `Address.PrecedenceIsTheLongestMatch` | core/net/addrselect.go:151-193 | The chain of tests is a longest-prefix lookup in a policy table as in section 2.1 of RFC 6724, with the code's values. |
| `Address.FormDoesNotMatter` | core/net/addrselect.go:136-172 | An IPv4 address has the same scope, precedence and common prefixes in four bytes and in sixteen. |
| `Address.ScopeByBlock` | core/net/addrselect.go:136-147 | The scope of an address by the block it lies in: 127.0.0.0/8 and ::1; 169.254.0.0/16, fe80::/10, 224.0.0.0/24 and ff02::/16 with any flags; and so on. |
| `AddrSelect.CompareSourceIsByKey` | core/net/addrselect.go:219-242 | The comparison is by scope, then by the number of shared bits, smaller first. |
| `AddrSelect.PickSource` | core/net/addrselect.go:197-216 | The scan returns the first source of least key among the eligible ones, none exactly if none is eligible. |
| `AddrSelect.LongestMatchIff` | core/net/addrselect.go:237-241 | The choice has the longest matching prefix exactly if all sources in the running share equally many bits. |
| `AddrSelect.ShorterPrefixWins` | core/net/addrselect.go:238-240 | 10.0.0.9 is dialled from 192.168.0.1 although 10.0.0.1 is there. |
| `AddrSelect.CompareDstIsByKey` | core/net/addrselect.go:283-325 | The comparison is the lexicographic order of reachable, scope match, shared bits, precedence, family. |
| `AddrSelect.CompareDstIsATotalPreorder` | core/net/addrselect.go:283-325 | Any two destinations compare, and the order is transitive. |
| `AddrSelect.ParseSources` | core/net/addrselect.go:100-125 | Exactly the sources that parse and are not plain multicast, in order. |
| `AddrSelect.SortedRoutable` | core/net/addrselect.go:55-69 | Dropping the unreachable after sorting is the same as before. |
| `AddrSelect.FirstIsBest` | core/net/addrselect.go:76-82 | Nothing routable precedes the first of the answer, and of its equals it came first. |
| `AddrAnswer.SelectAddresses` | core/net/addrselect.go:29-71 | As many pairs as there are destinations that some given source can serve; each pair is one such destination, with its zone and its own port if it has one, and one such source; each of those destinations is in a pair. They are in the order of the stable best-first sort. |
| `AddrAnswer.SelectFirst` | core/net/addrselect.go:73-82 | Nothing exactly if no given source can serve any destination; else the first pair, which no other destination goes before. |
| `AddrAnswer.EligibleIff` | core/net/addrselect.go:201-206 | A source can serve a destination exactly if it has the same IP version and, for a link-local destination, is link-local or loopback. |
| `AddrAnswer.AnswerIsOrdered` | core/net/addrselect.go:283-325 | No pair stands behind one that it goes before: same scope, more shared bits, higher precedence, IPv6. |
| `AddrAnswer.SourceIsBest` | core/net/addrselect.go:197-242 | No source that was given and can serve the destination is preferable to the one picked: same scope, fewer shared bits. |
| `StableSort.SortIffStable` | core/net/addrselect.go:55-57 | A sequence is the result of the sort exactly if it is sorted and keeps the order of equal elements. |
| `StableSort.FilterSort` | core/net/addrselect.go:55-69 | Sorting stably and dropping elements commute. |
| `AddrText.ReadPort` | core/net/addrselect.go:384-399 | Reads exactly the decimal numbers up to 65535. |
| `AddrText.ParsePortIff` | core/net/addrselect.go:384-399 | A port is zeros and the digits of a number up to 65535. |
| `AddrText.V4RoundTrip` | core/net/addrselect.go:402-419 | An IPv4 dial address splits into its parts again. |
| `AddrText.V6RoundTripIff` | core/net/addrselect.go:330-368 | An IPv6 dial address with a port splits into its parts exactly if the zone has no closing bracket. |
| `AddrText.V6BareRoundTripIff` | core/net/addrselect.go:365-368 | Without a port it does exactly if the zone does not end in white space. |
| `AddrText.BracketsWithoutPort` | core/net/addrselect.go:340-345 | A bracketed host without a port loses its zone. |
| `AddrText.BadPortIsRefused` | core/net/addrselect.go:346-363 | A port that is none refuses the whole text. |
| `Sanitize.StripPrefix` | core/transfer/path.go:78-110 | Drops a drive letter with its separators, or server and share of a network path. |
| `Sanitize.SkipShare` | core/transfer/path.go:80-101 | The scan with its inner loop finds what follows server, separators, share and one separator. |
| `Sanitize.ShareIsStripped` | core/transfer/path.go:80-101 | Server and share go, however many separators stand between them. |
| `Sanitize.UnfinishedShareIsKept` | core/transfer/path.go:99-102 | A network path without a separator behind its share loses the two slashes only. |
| `Sanitize.DriveIsStripped` | core/transfer/path.go:104-108 | A drive letter goes with its colon and all separators behind it. |
| `Sanitize.PrefixIsKeptIff` | core/transfer/path.go:78-110 | Nothing is taken off exactly if there is neither a drive letter nor a doubled slash with something behind it. |
| `Sanitize.SanitizeRelativePath` | core/transfer/path.go:52-74 | The loop over the segments collects the components in order. |
| `Sanitize.ComponentsAreNormal` | core/transfer/path.go:52-74 | No component is empty, ends in a dot or space, starts with white space, or holds a separator or illegal character. |
| `Sanitize.ForbiddenBecomeUnderscores` | core/transfer/path.go:36-59 | Angle brackets, colon, double quote, vertical bar, question mark, asterisk and control bytes become underscores; a segment with clean edges is kept otherwise. |
| `Sanitize.DroppedIff` | core/transfer/path.go:60-70 | A segment is dropped exactly if nothing but dots and spaces is left of it. |
| `Sanitize.IdempotentIff` | core/transfer/path.go:52-74 | Sanitising twice is sanitising once exactly if no segment of the input, once mapped and trimmed, is a name, a white-space character beyond ASCII, and final dots and spaces. |
| `Sanitize.HidesSpaceIff` | core/transfer/path.go:58-71 | A segment of that form is exactly one whose component ends in white space. |
| `Sanitize.IdempotentOnAscii` | core/transfer/path.go:52-74 | On ASCII input it always is. |
| `Sanitize.FinalDot` | core/transfer/path.go:60-67 | A final dot is dropped, and white space before it only the next time. |
| `Sanitize.NoBreakSpaceNeedsTwo` | core/transfer/path.go:60-67 | A name that ends in a no-break space and a dot needs two passes. |
| `SavePath.JoinSavePath` | core/transfer/path.go:120-144 | The path error occurs exactly if the save directory is the root; else the file gets the first free name in the place its components say. |
| `SavePath.PlainPathIsKept` | core/transfer/path.go:121-127 | A path of plain names is stored under exactly these names, whatever the base name. |
| `SavePath.BaseNameStandsIn` | core/transfer/path.go:121-127 | A plain base name is used where nothing of the path is left. |
| `SavePath.UnnamedStandsIn` | core/transfer/path.go:125-127 | If nothing is left of either, the name is "unnamed". |
| `SavePath.ChosenIsBelow` | core/transfer/path.go:149-158 | Every name that can be chosen lies strictly below the save directory. |
| `SavePath.DeConflict` | core/transfer/path.go:161-175 | The first free of 10000 names, or the path itself if all are taken. |
| `SavePath.NumberedIs` | core/transfer/path.go:165-173 | The i-th name has " (i)" before its last dot, or at its end if it has none. |
| `SavePath.FreeNameExists` | core/transfer/path.go:161-175 | With fewer than 10000 entries in the directory the name chosen is free. |
| `SavePath.CleanTwice` | core/transfer/path.go:129-138 | Cleaning a rooted path twice is cleaning it once. |
| `SavePath.CleanLaws` | core/transfer/path.go:129-138 | Empty and dot names go, a double dot goes with the name before it, and above the root there is nothing. |
| `ConnectUri.ParseConnectURI` | core/net/uri.go:36-133 | The parser's steps, each returning at the first violation. |
| `ConnectUri.FillIn` | core/net/uri.go:60-132 | The parameters are checked in order and filled in. |
| `ConnectUri.AcceptedIsUnambiguous` | core/net/uri.go:174-185 | What is accepted names no parameter twice. |
| `ConnectUri.AcceptedIff` | core/net/uri.go:60-132 | Exactly which parameters are accepted, and as what: none twice, an IPv4 or an IPv6 literal, the latter with a zone if it is link-local, a port from 1 to 65535, 32 lowercase hexadecimal digits, a name that decodes to something. |
| `ConnectUri.QueryIff` | core/net/uri.go:37-45 | The text is lanos://connect, alone or with a question mark and the query. |
| `ConnectUri.Write` | core/net/uri.go:152-172 | The builder writes the canonical text. |
| `ConnectUri.TextIsCanonical` | core/net/uri.go:152-172 | The text as written: the scheme, then ip, ip6, port, pk-hash and device-name in this order. |
| `ConnectUri.UriRoundTripIff` | core/net/uri.go:36-172 | A valid URI is read back field by field exactly if the zone is plain and the name has no percent or plus sign. |
| `ConnectUri.PlusIsLost` | core/net/uri.go:117-127 | A device called A+B is read back as A B. |
| `Percent.EscapeRoundTrip` | core/net/uri.go:117-127 | Decoding undoes the query encoding of every text. |
| `Percent.EscapedIsItselfIff` | core/net/uri.go:171 | A text is written as it is exactly if it has only letters, digits and - . _ ~. |
| `Percent.HexValueIff` | core/net/uri.go:117-127 | A hexadecimal digit is read in either case. |
| `Percent.DecodedIsItselfIff` | core/net/uri.go:120-127 | Decoding leaves a text alone exactly if it has no percent and no plus sign. |
| `Percent.EscapePercentIff` | core/net/uri.go:199-203 | Escaping percent signs alone is undone by decoding exactly if there is no plus sign. |
| `Txt.ParseTXT` | core/discovery/txt.go:64-127 | The loop over the lines and the checks after it. |
| `Txt.ParsedIff` | core/discovery/txt.go:64-127 | Exactly which lines are read, and as what: the last line of each key counts, every port is a number and every name decodes, six keys must be there with their forms, and the device name may be missing. |
| `Txt.UnknownIsIgnored` | core/discovery/txt.go:67-99 | A line without a known key can stand anywhere and changes nothing. |
| `Txt.AnyOrderIsRead` | core/discovery/txt.go:64-127 | The fields of a record, each once and in any order, are read back exactly if the record is valid. |
| `Txt.AnnouncementRoundTripIff` | core/discovery/txt.go:38-127 | What is built is read back for every device name exactly if the hash is 32 lowercase hexadecimal digits. |
| `Txt.AnnouncementLines` | core/discovery/txt.go:51-59 | The seven lines as they are written. |
| `Txt.BuiltIff` | core/discovery/txt.go:38-50 | Built exactly for the three IP versions, a port from 1 to 65535 and a hash that is not empty. |
| `Txt.ShortHashIsRefused` | core/discovery/txt.go:48-117 | A hash of one digit is announced and refused. |
| `Like.EscapeLikeIsCharacterwise` | core/store/crud.go:512-517 | The three replacements equal one character-wise map. |
| `Like.OrderOfPassesMatters` | core/store/crud.go:512-517 | With the escape character last they would not, for exactly the texts that hold a wildcard. |
| `Like.SearchIsSubstring` | core/store/crud.go:172-179 | The pattern matches a path exactly if the text searched for occurs in it, up to the engine's equality of characters. |
| `EventLog.LogTellsMap` | core/discovery/discovery.go:182-303 | In every run, replaying the events from nothing gives the device map on every field but the time of the last announcement. |
| `EventLog.GrayMeansThreeFailures` | core/discovery/prober.go:126-151 | A gray device has failed at least three probes since its last success. |
| `EventLog.LogKeeps` | core/discovery/discovery.go:182-303 | Every operation keeps log and map in agreement. |
| `Announced.DeviceIsLastAnnouncement` | core/discovery/discovery.go:196-262 | In every run each field of a device is that of its last announcement. |
| `Announced.AnnouncementShows` | core/discovery/discovery.go:206-262 | An announcement is in the map at once, with every field, online, and first seen at its arrival. |
| `Announced.FirstSeenIsArrival` | core/discovery/discovery.go:206-224 | A device was first seen when it last came into the map, and has been there since. |
| `Announced.SweepKeepsIff` | core/discovery/discovery.go:286-303 | A sweep keeps exactly the devices announced in the last 30 seconds. |
| `Announced.FailureGraysIff` | core/discovery/prober.go:142-151 | A failed probe makes a device gray exactly if it is the third or later since the last success. |
| `Announced.SuccessUngrays` | core/discovery/prober.go:126-138 | After a successful probe a device is online. |
| `Coalesce.CoalescingKeepsViewIff` | core/api/sse.go:134-168 | A window leaves the client with the right view exactly if each device's last event has the effect of the one that goes out last. |
| `Coalesce.BlocksKeepView` | core/api/sse.go:134-168 | It does if each device's events of one type form one block. |
| `Coalesce.ComingBackIsLost` | core/api/sse.go:134-168 | Online, offline, online between two flushes leaves the client without the device. |
| `Coalesce.ClientShowsMap` | core/api/sse.go:134-168 | A client that has received every window shows the device map, if no window loses an effect. |
| `EventClock.OfflineIsLate` | core/discovery/discovery.go:286-303 | A device is taken offline only more than 30 seconds after every announcement of it, the silent ones included. |
| `EventClock.TimedReachable` | core/discovery/discovery.go:182-303 | In every run on a clock that does not go back, appearances and disappearances of a device alternate, and more than 30 seconds lie between an appearance and the disappearance after it. |
| `ClientView.PresenceIsKept` | core/api/sse.go:134-168 | Coalescing a part of a run's log that spans at most 30 seconds never changes which devices a client shows. |
| `ClientView.LastWordInWindow` | core/api/sse.go:134-168 | Within such a part, what goes out last about a device is its last event, or its appearance when updates have followed. |
| `ClientView.ThirtyIsSharp` | core/api/sse.go:134-168 | A run of 31 seconds in which a client that is sent nothing meanwhile loses a device. |
| `ClientView.CopiesWouldBeStale` | core/api/sse.go:134-168 | A run in which copies of the records, coalesced, would show an old name. |
| `ClientView.LiveKeepsView` | core/discovery/discovery.go:206-224 | With the live record in the online event, a window that is flushed at its end loses nothing. |
| `ClientView.ClientShowsMapNow` | core/api/sse.go:134-168 | After every flush the client shows exactly the device map of that moment. |
| `Presence.SliceEqual` | core/discovery/discovery.go:244-251 | Compares two address lists element by element. |
| `Presence.DeviceRecord.Absorb` | core/discovery/discovery.go:226-262 | Every field is brought up to date, and a change is reported exactly if something visible changed. |
| `Presence.Discovery.HandleEntry` | core/discovery/discovery.go:182-270 | Malformed and own announcements change nothing; a new device appears with an event, a known one is updated with an event only on a change. |
| `Presence.Discovery.Reap` | core/discovery/discovery.go:286-303 | Exactly the devices not heard of for 30 seconds leave the map, each with an event. |
| `Presence.Discovery.SetStatus` | core/discovery/prober.go:166-182 | Changes the status with an event, or does nothing for an unknown device or the same status. |
| `Presence.Discovery.OnSuccess` | core/discovery/prober.go:126-138 | Resets the count; a gray device comes back online. |
| `Presence.Discovery.OnFailure` | core/discovery/prober.go:142-151 | Counts; from the third failure on the device is gray. |
| `Presence.EventStream.Receive` | core/api/sse.go:160-164 | The pending events are the latest of each key, in the order the keys first came. |
| `Presence.EventStream.Flush` | core/api/sse.go:139-150 | Sends the coalesced window and starts a new one. |
| `Presence.PeerList.OnEvent` | ui/lib/services/device_service.dart:75-107 | The client's list goes on showing what the events say, and devices keep their places. |

## Left out

- MuxTheorems.DemultiplexInOrder: a prefix, not completeness, because `RecvFrame` may return the close error while frames are still buffered.
- Mux.Mux.Shutdown: says nothing about streams registered after it; `dispatch` does not look at `closed`, so such a stream may stay open.
- MuxTheorems.OpenTakesFreshID: for fewer than 2^31 Opens at each end; beyond that it is false, as `MuxTheorems.WrapOverwritesLiveStream` shows.
- CancelProtocol.CancelIsNeverLost: one Execute per transfer and no Remove; with a concurrent registry Cancel, CancelAll or Cleanup the context ends with that caller's next step, or, after a bare Cleanup, not at all.
- SendFile.Execute: no other thread in between; `CancelProtocol` has the interleavings. How dialling ends is a parameter, and so is whether the file can be read; errors of the connection and progress updates on the way are not modelled.
- HeaderBody.ReadHeader: fails on a stream without a whole frame, and says nothing when the header does not fill exactly the first frame, which the sender never writes.
- HeaderBody.StreamFile: errors of reading the file and of the connection are not modelled; `HeaderBody.SendAndLose` has the cut connection on the side that receives.
- HeaderBody.SaveFile: progress callbacks, errors of the file and its permissions are not modelled.
- Mux.Mux.SendFrame: a connection that fails in the middle of a frame is not modelled, and the look at `closed` and the write are one step; `MuxState` has them apart.
- ChunkProtocol.CrashSafe: a process crash only, not a power failure that loses what the file system had not written; and no crash inside Cleanup, which removes chunks before the meta file.
- ChunkWriter.ChunkWriter.WriteChunk: errors of the file system are steps of `ChunkProtocol`, not results of the method; among them the save that fails after the flag is set, which leaves the flag in memory only.
- ChunkProtocol.Reachable: the manifest of a task is fixed, since loadMeta compares only task ID and length.
- ChunkState.ExpectedSizesMatch: hashes are an abstract function, assumed free of second preimages where the file is concluded from its hashes.
- AddrAnswer.SelectAddresses: parsing and printing of IP literals are parameters, and the library's stable sort is known by its contract.
- ConnectUri.UriRoundTripIff: the literal accepted as ip is taken to hold none of the characters `%`, `+`, `&` and `;`, which no IP literal has.
- SavePath.JoinSavePath: paths with `/` as separator and an absolute save directory; relative ones depend on the working directory, other separators on the platform. Symbolic links are not modelled.
- EventLog.LogTellsMap: each operation is taken together with its event, and no event is dropped; the channels drop when they are full.
- EventLog.GrayMeansThreeFailures: `onSuccess` and `onFailure` are taken as one step each, although they use two locks in turn.
- Presence.EventStream.Flush: sends the events as they were received, with copies of the records; `ClientView` has the live record.
- Presence.Discovery.HandleEntry: its online event holds a copy, where the source's holds a pointer to the record (`core/discovery/discovery.go:222`) that is read without the lock when it is sent; the races of that read are not modelled.
- ClientView.ClientShowsMapNow: what is emitted before a flush is taken to be in its window.
- Coalesce.ClientShowsMap: the poll that replaces the list now and then is not modelled, nor is the JSON form; the server sends the status (`core/discovery/device.go:48`), the client does not read it (`ui/lib/models/device.dart`).
- Scheduling fairness and real time: safety, and a bound on the queue's own steps, are proved; eventual dispatch under a scheduler is not.
- Cryptography and checksums: abstract functions; decryption inverts encryption at the same message number. The limit of the nonce is not modelled.
- Sockets, files, SQLite, mDNS, HTTP routing and logging: an abstract byte stream, file store or set of existing paths stands for them.
- `core/receive/manager.go`, web shares, configuration, trust store, statistics and the user interface: short branch-level facts.
- `StateMachine.ValidTransitions`: a sorted list for tests.
