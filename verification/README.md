# A verified model of socket-collection

The model covers the message layer of the socket-collection crate: TCP sockets that frame,
encrypt, prioritise and reassemble messages over a byte stream, UDP sockets with two send lanes
and two receive buffers, and the priority queue with expiry that both use.

`dafny verify dfyconfig.toml` checks the whole project.

## How the model is built

| file | what it models |
|---|---|
| `Base.dfy` | bytes, `u32`, results, errors, subsequences and interleavings |
| `Crypto.dfy` | encryption contexts, the 4-byte `u32` header, the cipher contract, a cipher that keeps it |
| `Config.dfy` | the socket configuration |
| `OutQueue.dfy` | `OutQueue`: the key-sorted map of deques, its in-place operations, the expiry rule, freshness |
| `Outbox.dfy` | a queue with its history; conservation over runs; every run against a flat log of arrivals; the stable sort |
| `Framing.dfy` | `serialize_with_len`, and the one-shot parse of a whole byte string |
| `Reader.dfy` | `LenDelimitedReader`, against the one-shot parse |
| `TcpSender.dfy` | `write` and its flush loop |
| `TcpReceiver.dfy` | `read` and its drain loop |
| `TcpSocket.dfy` | the TCP `Inner` with fields updated in place, tied to the two files above |
| `TcpSystem.dfy` | sender, byte stream and receiver as one state machine; end-to-end theorems |
| `SenderRuns.dfy` | what the sender guarantees in every run, whatever the receiver does: atomic frames, conservation, freshness, termination, the meaning of `false` |
| `TcpCalls.dfy` | whole `read` and `write` calls as runs of that machine; everything can arrive |
| `ContextSwitch.dfy` | changing the contexts of both ends of a stream while messages are under way, and exactly when that is safe |
| `UdpReceiver.dfy`, `UdpSender.dfy` | receive buffers and send lanes |
| `UdpSocket.dfy` | the UDP `Inner` with fields updated in place, tied to the two files above |
| `UdpWrites.dfy` | what the result of a datagram write says of the message it was given |
| `UdpDelivery.dfy` | what reads return, over any buffer and any replies, for both lanes |
| `UdpSwitch.dfy` | changing the decryption context between reads of datagrams, and exactly when that is safe |
| `Differences.dfy` | one concrete input for each way in which the code differs from its documentation |

Every method that changes state promises that its new state and result are those of a
specification function of the old state. The theorems are lemmas about these functions, about
runs of them, and about the state machine of both ends. Streams and sockets keep what they are handed:
the bytes of a stream are its `wire`, and a UDP socket logs each datagram with its peer, which `Valid()`
ties to the attempts that the theorems speak about.

The surroundings are parameters. A stream or a socket is the list of what it will answer: how many
bytes a write takes at most, which bytes a read returns, that it would block, was interrupted, or
failed. A list that is used up would block; a closed stream whose list is used up is at its end and
stays there. A call reads the clock once, as a count of nanoseconds that never goes back; runs say
how much time passed since the last reading. Sealing is randomised, so the random input is a
parameter. A message type is given by a codec, and codec and cipher are values: their laws
(`Lawful`, `Paired`) are hypotheses of the lemmas that need them, and `ToyKeysPaired` shows a cipher
that meets them. The history kept in `Outbox`, `Sender`, `SendLane` and `System` (what was accepted,
started, dropped, sent, delivered) has no counterpart in the code; it is what the statements speak
about.

## Where the code and its documentation differ

- `src/tcp.rs` documents `Ok(None)` from `read` as not enough data in the socket. A zero-length
  frame is consumed with the same result even when a complete frame follows it, as in
  `ZeroFrameHidesMessage`. `NoMessageMissedIff` gives the exact condition.
- `src/tcp.rs` documents `Ok(false)` from `write` as the given message not being fully written.
  The code returns it when any frame is still in progress, as in `FalseThoughFullyWritten`.
  `FalseMeansUnwrittenInRuns` gives the exact condition. `Ok(true)` does mean what it is documented to
  mean: `TrueMeansWrittenInRuns`.
- `src/udp.rs` documents `Ok(false)` and `Ok(true)` of `write` and `write_to` in the same words, and the
  first is wrong in the same way, as in `FalseThoughFullySent`. `FalseMeansUnsentInRuns` gives the exact
  condition for both lanes.
- `src/error.rs` documents `PayloadSizeProhibitive` for messages to be sent as well. No sender checks
  a size, and the length is cast to `u32`: see `OversizedIsWritten` and `EmptyIsWrittenButNotRead`.
  `FrameReadsBackIff` and `AloneDeliveredIff` give the exact condition under which a written message
  is read back.
- After `PayloadSizeProhibitive` the reader keeps the oversized length and does not remove the
  header, so the error is not reported again, and header bytes can be handed out as a message, as in
  `OversizedIsReadAfterAll`. `ErrorRepeatsIff` gives the exact condition for all errors.
- An encrypted message of zero bytes is a datagram that the receiving socket ignores, as in
  `EmptyDatagramVanishes`. `DatagramRoundTripIff` gives the exact condition.
- `src/tcp.rs` and `src/udp.rs` document contexts as changeable at any time. What has been received is
  decrypted when it is read, so changing the decryption context can lose it, as in
  `SwitchFailsOnHeldFrame` and `SwitchLosesBufferedDatagram`. The exact conditions: over a stream,
  `StreamSwitchIsSafeIffInRuns` (all messages started before the sender changed have been delivered);
  over datagrams, for each of the two buffers, `SwitchIsSafeIff` and, for a context that rejects what was
  made for another, `ForeignSwitchIsSafeIff` (nothing is buffered, as it is right after a read that
  returned no message: `NothingBufferedAfterNone`).

## Model

| member | source | states |
|---|---|---|
| Crypto.U32RoundTrip | src/crypto.rs:17-18 | the 4-byte header form and `u32` are in bijection, the least significant byte first |
| Crypto.DecryptUndoesEncrypt | src/crypto.rs:59-68 | whatever a context encrypts, the paired context decrypts to the same value, for all three kinds |
| Crypto.EncryptedHeader | src/crypto.rs:70-78 | an encrypted length decrypts to itself and has exactly the length both contexts announce |
| Crypto.ErrorKinds | src/crypto.rs:58-68 | when encryption and decryption fail, and that the error is the serialiser's without a key and the cipher's with one |
| Crypto.ToyKeysPaired | src/crypto.rs:122-145 | the contract asked of a cipher can be met, for shared and for public keys, also by one that rejects what was sealed with another key |
| OutQueues.Extensional | src/out_queue.rs:17-20 | without empty deques and with sorted keys, the stored map is determined by the deque of each priority |
| OutQueues.PushedEffect | src/out_queue.rs:66-74 | a push appends to the deque of its priority, touches no other, and keeps keys sorted and deques non-empty |
| OutQueues.OutQueue.PushAt | src/out_queue.rs:66-74 | walking to the entry, inserting it if missing and appending gives that new state |
| OutQueues.OutQueue.Push | src/out_queue.rs:31-34 | the message is queued with the clock reading as its stamp |
| OutQueues.NextEffect | src/out_queue.rs:54-64 | taking the next message removes the front of the least non-empty priority and nothing else; no empty deque remains |
| OutQueues.OutQueue.NextMsg | src/out_queue.rs:54-64 | it returns none exactly on an empty queue, else that front, and removes an entry when it empties |
| OutQueues.FirstInvalidIsFirst | src/out_queue.rs:76-83 | skipping valid deques stops at the first that is droppable and expired at its front |
| OutQueues.AgeInNanoseconds | src/out_queue.rs:86-92 | an age counted in whole seconds exceeds the limit exactly when limit plus one seconds, in nanoseconds, have passed |
| OutQueues.ExpiryRule | src/out_queue.rs:36-52 | a deque is dropped, whole, if and only if the front of some droppable priority at least as urgent has waited for (limit + 1) * 10^9 nanoseconds; the others are unchanged |
| OutQueues.ExpirySplits | src/out_queue.rs:36-52 | kept and dropped messages together are as many as there were |
| OutQueues.OutQueue.DropExpired | src/out_queue.rs:36-52 | removing the expired keys one by one leaves exactly the survivors and returns the exact number dropped |
| OutQueues.OutQueue.Remove | src/out_queue.rs:41 | removing a key takes out its deque and leaves the other entries in place |
| OutQueues.SurvivorsAreFresh | src/out_queue.rs:86-92 | although only fronts are checked, every droppable message that survives has waited for less than (limit + 1) * 10^9 nanoseconds |
| OutQueues.PushKeepsTime | src/out_queue.rs:31-34 | pushing at a later reading keeps every deque ordered by time and fresh queues fresh |
| OutQueues.NextKeepsTime | src/out_queue.rs:54-64 | so does taking the next message, and that message is fresh if the queue was |
| Outboxes.QueueConservation | src/out_queue.rs:31-74 | in every run, per priority and in order, accepted is what left followed by what is queued, and what left is the started and the dropped interleaved: every accepted message is exactly one of started, dropped and queued; of a protected priority none is dropped |
| Outboxes.FreshAfterExpiry | src/out_queue.rs:36-52 | in every run, right after an expiry no droppable message has waited for (limit + 1) * 10^9 nanoseconds |
| Outboxes.QueueRefinesArrivalLog | src/out_queue.rs:31-74 | every run is matched by a flat log where a push appends, an expiry filters out the doomed priorities and a taking removes the earliest of the most urgent: the messages taken are the same, the queue holds the same, and it would drain in the stable order by priority |
| Outboxes.StableSortEffect | src/lib.rs:67-71 | the reference sort by priority is sorted and keeps the order within every priority |
| Outboxes.SortedLogUnique | src/lib.rs:67-71 | these two facts determine the order |
| Outboxes.PushedPlace | src/out_queue.rs:54-74 | a pushed message goes out behind all that are at least as urgent and before all others |
| Outboxes.PushedGoesLastIff | src/out_queue.rs:54-74 | it goes out last if and only if nothing queued is less urgent |
| Framing.SerializeWithLen | src/tcp.rs:395-408 | filling the cursor buffer gives the encrypted length followed by the encrypted data, or the first error |
| Framing.WriteAt | src/tcp.rs:404-405 | a write at the cursor puts exactly the bytes there and keeps what is before |
| Framing.SerializedParts | src/tcp.rs:396-408 | a receiver with the paired context finds in the frame the length modulo 2^32 and the message |
| Framing.FrameReadsBackIff | src/tcp.rs:396-408 | a written message is read back as that message, from exactly its frame, if and only if its encrypted form is non-empty, within the limit and shorter than 2^32 |
| Framing.FramesRoundTrip | src/tcp.rs:435-470 | concatenated frames, whatever follows, parse to exactly their messages in order |
| Reader.LenDelimitedReader.PutBuf | src/tcp.rs:429-433 | bytes are appended to what is held |
| Reader.LenDelimitedReader.TryRead | src/tcp.rs:435-446 | one attempt makes exactly the specified step, also when it fails |
| Reader.LenDelimitedReader.TryReadHeader | src/tcp.rs:448-464 | one header attempt makes exactly the specified step, also when it fails |
| Reader.LenDelimitedReader.MarkRead | src/tcp.rs:466-470 | the body is removed and the next header awaited |
| Reader.TryFollows | src/tcp.rs:435-470 | whatever bytes come later, an attempt moves along the one-shot parse: it delivers its next message, nothing, or its error |
| Reader.AttemptTakes | src/tcp.rs:435-470 | an attempt takes from the buffer the rest of the frame it delivers, or else nothing or one whole header, whose number it keeps |
| Reader.DeliveredIsPrefixOfParse | src/tcp.rs:429-470 | for arbitrary bytes in arbitrary pieces with attempts in between, delivered messages are a prefix of the one-shot parse, and an error comes only where that parse ends with it |
| Reader.EnoughTriesReachParse | src/tcp.rs:429-470 | enough attempts reach exactly the messages and the error of the one-shot parse |
| Reader.ChunkingIndependence | src/tcp.rs:429-470 | two readers fed the same bytes, however cut, end with the same messages and the same error |
| Reader.FramesAreDelivered | src/tcp.rs:435-470 | fed frames and a suffix, the reader delivers the messages, one per attempt, and keeps exactly the suffix |
| Reader.SerializedAreFramesIff | src/tcp.rs:395-470 | written messages are one by one frames that read back as themselves, if and only if all of them fit |
| Reader.WrittenIsDelivered | src/tcp.rs:395-470 | whatever fitting messages are written one behind the other, a reader fed their bytes and any suffix delivers exactly them, in order, and keeps the suffix |
| Reader.AloneDeliveredIff | src/tcp.rs:396-470 | a message written alone is delivered, leaving the reader empty, if and only if its encrypted form is non-empty, within the limit and shorter than 2^32 |
| Reader.ErrorRepeatsIff | src/tcp.rs:448-464 | an error is reported again if and only if it is not that of an oversized frame |
| Reader.NothingReadIff | src/tcp.rs:435-464 | an attempt finds nothing exactly when a frame is incomplete or a zero-length frame is consumed |
| Reader.SomethingToReadIff | src/tcp.rs:435-464 | bytes hold a message or an error exactly when a complete or faulty frame stands behind the zero-length frames at their front |
| TcpSender.TakeConserves | src/tcp.rs:326-334 | going on with the current frame, or starting the next, changes neither the bytes to be sent nor their order |
| TcpSender.SendConserves | src/tcp.rs:324-354 | no turn of the flush loop short of a fatal error loses, duplicates or reorders a byte or a message |
| TcpSender.SendKeepsInv | src/tcp.rs:324-354 | a turn keeps frame atomicity, queue conservation and freshness |
| TcpSender.EnqueueKeepsInv | src/tcp.rs:315-320 | so do expiry and queueing, and the queue is fresh afterwards |
| TcpSender.WriteKeepsInv | src/tcp.rs:315-354 | so does a whole write call, whatever the stream answers |
| TcpSender.FlushConserves | src/tcp.rs:323-354 | a flush sends bytes in exactly the order in which frames drain from the queue, the current rest first |
| TcpSender.FlushStops | src/tcp.rs:336-352 | which replies a flush uses, and how its result depends on the last of them |
| TcpSender.FlushResult | src/tcp.rs:323-354 | true says that everything outstanding is on the wire and nothing is queued, false that a frame is in progress, an error that its rest is discarded |
| TcpSender.WriteResult | src/tcp.rs:315-354 | of every write call, with or without a message: true exactly if nothing is in progress or queued and no write failed, false exactly if a frame is in progress, the error exactly if the last write used failed; a message that cannot be serialised returns its error and uses no reply |
| TcpSender.WriteEffect | src/tcp.rs:315-334 | every write call, with or without a message, reads the clock, drops of each priority exactly what is doomed at the reading, accepts its own message, and starts records at that reading, no droppable one too old |
| TcpSender.FlushTerminates | src/tcp.rs:324-354 | if the stream takes at least one byte whenever it takes any, it is asked at most once per outstanding byte and once more; if it never blocks, the flush returns true |
| TcpSender.ZeroWritesMakeNoProgress | src/tcp.rs:337-340 | a stream that takes no byte is asked without end and nothing changes |
| TcpReceiver.ReadAccounts | src/tcp.rs:272-313 | a read moves along the one-shot parse, however it ends: held and coming bytes parse to what it delivers followed by what held and coming bytes parse to afterwards |
| TcpReceiver.ReadCases | src/tcp.rs:272-313 | a read, case by case: what is held comes first and leaves the stream alone; otherwise exactly the data at hand and the reply behind it are used, a fatal error is returned if and only if that reply is one, keeping all data, and else one more attempt decides |
| TcpReceiver.ReadKeepsBytes | src/tcp.rs:272-313 | no byte is lost, however it ends: the call uses the first replies, the reader is left with a suffix of what it held and was given, only headers and a delivered body go, and a fatal error keeps everything that was drained |
| TcpReceiver.NoMessageMissedIff | src/tcp.rs:272-313 | no message is returned only on a block, the end is reported only at the end; either way the reader is left holding a message or an error if and only if the bytes of the last attempt begin with zero-length frames followed by a complete or faulty frame, and it is then what the bytes behind that header parse to |
| TcpReceiver.EverythingBeforeTheEnd | src/tcp.rs:281-298 | on a stream that ends, without zero-length frames, repeated reads hand out every complete frame and only then report the end; a partial frame is never handed out |
| TcpSocket.EraseSurvivors | src/tcp.rs:239-245 | expiry acts on stored frames as it does on the messages behind them |
| TcpSocket.ErasePushed | src/tcp.rs:239-245 | so does a push |
| TcpSocket.EraseNext | src/tcp.rs:239-245 | so does taking the next message |
| TcpSocket.TcpInner.constructor | src/tcp.rs:252-262 | a new socket holds nothing and has the configured contexts, limit and queue |
| TcpSocket.TcpInner.SetEncryptCtx | src/tcp.rs:264-266 | frames queued or in progress are not altered |
| TcpSocket.TcpInner.SetDecryptCtx | src/tcp.rs:268-270 | what the reader holds is not altered |
| TcpSocket.TcpInner.Read | src/tcp.rs:272-313 | the loop leaves reader, stream and result as specified, case by case in `ReadCases` |
| TcpSocket.TcpInner.Write | src/tcp.rs:315-321 | expire at the clock reading, queue the frame of the message with that stamp or return its error, flush: fields, stream and result are as specified, and as `WriteResult` and `WriteEffect` say |
| TcpSocket.TcpInner.FlushWriteUntilWouldBlock | src/tcp.rs:323-354 | the loop leaves current frame, queue, wire and result as specified |
| TcpSocket.TcpInner.EnqueueData | src/tcp.rs:356-360 | the frame of the message is queued under its priority, or nothing is and the error returned |
| TcpSystem.TryAtFrame | src/tcp.rs:435-470 | at a started frame, an attempt waits for the rest or delivers exactly its message and moves behind it |
| TcpSystem.TryReadKeepsSystem | src/tcp.rs:435-446 | in the system, an attempt with the matching context delivers the next started message or nothing, and never fails |
| TcpSystem.DeliveredInStartOrder | src/tcp.rs:272-361 | in every run of sender, stream and receiver, delivered messages are a prefix of the started ones, no read fails, and once drained they are all of them |
| TcpSystem.DeliveredByPriority | src/lib.rs:67-78 | of a protected priority, delivered is a prefix of accepted, and all of it once drained; of a droppable one, a subsequence |
| SenderRuns.FramesAreAtomic | src/tcp.rs:324-354 | in every run up to the first fatal error the wire is all started frames in order, but for a rest of the last one, and the current rest is exactly what is missing of it |
| SenderRuns.NoStaleStart | src/tcp.rs:315-333 | in every run, every droppable message taken for writing has waited, at that write's reading, for less than (limit + 1) * 10^9 nanoseconds |
| SenderRuns.WritesExpire | src/tcp.rs:315-334 | after every run, every write call, with or without a message, expires and starts at its own reading as `WriteEffect` says |
| SenderRuns.SenderConserves | src/tcp.rs:315-354 | in every run, per priority, the accepted messages are exactly the started, the dropped and the queued ones, each in order; of a protected priority none is dropped |
| SenderRuns.WritesTerminate | src/tcp.rs:315-354 | every write call of every run asks a stream that takes at least one byte whenever it takes any at most once per outstanding byte and once more; false leaves a non-empty rest of a frame |
| SenderRuns.FalseMeansUnwrittenInRuns | src/tcp.rs:166-174 | for every write call of every run, false means that the frame of the given message is not fully on the wire, whatever the stream does, if and only if nothing less urgent is queued after the expiry |
| SenderRuns.TrueMeansWrittenInRuns | src/tcp.rs:166-174 | for every write call of every run, true means that the frame of the given message is fully on the wire |
| TcpCalls.FlushIsRun | src/tcp.rs:323-354 | a whole flush is a run of the system |
| TcpCalls.WriteIsRun | src/tcp.rs:315-321 | a whole write call is a run of the system, whatever the stream answers |
| TcpCalls.ReadIsRun | src/tcp.rs:272-313 | a whole read call is a run of the system, whatever the pieces, and returns no parse error |
| TcpCalls.EverythingCanArrive | src/tcp.rs:272-361 | from every state without a fatal error, some continuation delivers, in order, everything started and everything queued, most urgent first |
| TcpCalls.EverythingCanArriveInRuns | src/tcp.rs:272-361 | in particular every admissible run without a fatal error can be continued until everything has arrived |
| ContextSwitch.DisciplinedIsAdmissible | src/tcp.rs:264-270 | under the switching discipline every attempt to read is made with the matching context |
| ContextSwitch.SwitchIsSafe | src/tcp.rs:264-270 | if the sender switches when its queue is empty and the receiver after the last earlier message and before any further attempt, messages of both contexts are delivered in order and no read fails |
| ContextSwitch.StreamSwitchIsSafeIffInRuns | src/tcp.rs:268-270 | once the sender has changed to a context that does not recognise earlier frames, a receiver that has changed too never fails to read, whatever is sent, fed and read, if and only if all messages started before have been delivered |
| UdpReceiver.HandleRecvRes | src/udp.rs:443-463 | what is handed out and what is buffered afterwards are what was buffered and what arrived, in that order; nothing is handed out exactly on a block with an empty buffer, and only a fatal error is returned |
| UdpReceiver.ReadConserves | src/udp.rs:307-353 | one call loses and duplicates no datagram; no message is returned only with its buffer empty and the socket blocking |
| UdpReceiver.ReadLaneCases | src/udp.rs:307-353 | a call on either lane, case by case: what is buffered comes first and leaves the socket alone; otherwise exactly the datagrams at hand and the reply behind them are used, the call fails if and only if that reply is a fatal error, keeping all of them, and else hands out the oldest |
| UdpReceiver.ReceiveConservation | src/udp.rs:307-353 | in every interleaving of both calls, each non-empty datagram enters exactly one buffer and leaves it once, in order of arrival |
| UdpDelivery.ReadsReturnMessages | src/udp.rs:307-353 | on either lane, reads with matching contexts return the available messages in order, with their senders, leave the others readable, fail only where the socket does, and return all if there are enough of them |
| UdpDelivery.CallResults | src/udp.rs:307-353 | `read` returns the message of the datagram taken and `read_frm` the message and its sender, both the error of one that does not decrypt, and nothing or the error if none is taken |
| UdpDelivery.DatagramRoundTripIff | src/udp.rs:307-353 | over any buffer and any replies, enough reads return exactly the messages buffered and received whose encrypted form is non-empty, in order; these are all messages if and only if none has an empty form |
| UdpSwitch.DatagramSwitchIsSafe | src/udp.rs:303-353 | however often the context is changed, if every read that takes a datagram uses the one that goes with it, enough reads return all messages in order and none fails but for the socket |
| UdpSwitch.SwitchIsSafeIff | src/udp.rs:303-353 | after a change, with what still comes made for the new context, no read ever fails if and only if that context decrypts every buffered datagram |
| UdpSwitch.ForeignSwitchIsSafeIff | src/udp.rs:303-353 | for a context that rejects what was made for another, that is if and only if nothing is buffered; otherwise each buffered datagram costs one failing call and is lost |
| UdpSwitch.NothingBufferedAfterNone | src/udp.rs:307-353 | a read that finds no message leaves its buffer empty |
| UdpSender.HandleSendRes | src/udp.rs:465-492 | short of a fatal error a datagram is accepted in full or kept whole for a retry; the caller goes on exactly when something was sent |
| UdpSender.TurnKeepsLane | src/udp.rs:376-393 | a turn keeps whole-datagram order, retry before anything else, conservation and freshness, also when it meets a fatal error |
| UdpSender.FlushLaneResult | src/udp.rs:375-393 | datagrams start in drain order; true says nothing is left, false that one is to be retried, an error that the last one is given up |
| UdpSender.FlushLaneStops | src/udp.rs:375-393 | which replies a flush uses, and how its result depends on the last of them |
| UdpSender.WriteLaneResult | src/udp.rs:355-413 | of every write call, with or without a message: true exactly if nothing is in progress or queued and no send failed, false exactly if a datagram is in progress, the error exactly if the last send used failed; a message that fails to encrypt returns its error and sends nothing |
| UdpSender.WritesExpireInRuns | src/udp.rs:355-361 | after any calls, every `write`, with or without a message, drops of each priority exactly what is doomed at its reading, accepts its own message, and starts datagrams at that reading, no droppable one too old |
| UdpSender.WriteTosExpireInRuns | src/udp.rs:363-373 | so does every `write_to` |
| UdpSender.FlushLaneTerminates | src/udp.rs:375-393 | a flush asks the socket at most once per pending datagram, once per send accepted in part, and once more |
| UdpSender.PartialSendsMakeNoProgress | src/udp.rs:465-481 | a socket that keeps accepting a part is asked without end and the datagram stays in progress |
| UdpWrites.FalseMeansUnsentInRuns | src/udp.rs:172-206 | after every interleaving of calls, on both lanes: false means that the given message has not been sent in full, whatever the socket answers, if and only if nothing less urgent is queued after the expiry; true always means that it has |
| UdpSender.SendLanesGuarantee | src/udp.rs:355-413 | in every interleaving of calls, fatal errors included, each lane finishes whole datagrams in queue order, sends a partial one again first, accounts for every accepted message, drops no protected one and starts no stale one |
| UdpSender.LanesAreIndependent | src/udp.rs:270-281 | each lane of a run is what it would be without the calls on the other; that a call of the code leaves the other lane alone is the frame of UdpInner.Write and UdpInner.WriteTo |
| UdpSockets.UdpInner.constructor | src/udp.rs:284-297 | a new socket holds nothing and both queues have the configuration |
| UdpSockets.UdpInner.SetEncryptCtx | src/udp.rs:299-301 | nothing queued or in progress is altered |
| UdpSockets.UdpInner.SetDecryptCtx | src/udp.rs:303-305 | nothing buffered is altered |
| UdpSockets.UdpInner.Read | src/udp.rs:307-328 | buffer, socket and result are as specified, case by case in `ReadLaneCases` and `CallResults`; a failed decryption consumes exactly its datagram |
| UdpSockets.UdpInner.ReadFrm | src/udp.rs:330-353 | the same for the buffer with senders |
| UdpSockets.UdpInner.Write | src/udp.rs:355-361 | the first lane and the result are as specified, the encrypted message is queued with its priority and the clock reading or its error returned, the socket has been handed with `send` exactly the datagrams of the lane's attempts, and the second lane is outside the frame |
| UdpSockets.UdpInner.FlushWriteUntilWouldBlock | src/udp.rs:375-393 | the loop leaves lane, socket and result as specified, and hands the socket exactly the datagrams of the lane's attempts |
| UdpSockets.UdpInner.WriteTo | src/udp.rs:363-373 | the second lane and the result are as specified, the encrypted message is queued with its peer, its priority and the clock reading or its error returned, the socket has been handed with `send_to` exactly the datagrams and peers of the lane's attempts, and the first lane is outside the frame |
| UdpSockets.UdpInner.FlushWriteToUntilWouldBlock | src/udp.rs:395-413 | the loop leaves lane, socket and result as specified, and hands the socket exactly the datagrams and peers of the lane's attempts |
| Differences.ZeroFrameHidesMessage | src/tcp.rs:155-157 | a read returns no message although a complete frame was received, and the next call returns it without another byte |
| Differences.FalseThoughFullyWritten | src/tcp.rs:170-171 | three writes from a new socket, the last of which returns false with its own frame on the wire |
| Differences.FalseThoughFullySent | src/udp.rs:176-177 | the same of three writes of datagrams |
| Differences.OversizedIsWritten | src/error.rs:40-41 | a message above the limit is written with true, and reading it gives the error |
| Differences.EmptyIsWrittenButNotRead | src/tcp.rs:396-408 | an empty message is written with true, and reading it gives nothing |
| Differences.OversizedIsReadAfterAll | src/tcp.rs:456-460 | behind an oversized frame the next attempt delivers bytes of its header as a message |
| Differences.EmptyDatagramVanishes | src/udp.rs:449-453 | the datagram of an empty message is received and nothing is returned |
| Differences.SwitchLosesBufferedDatagram | src/udp.rs:26-27 | of two datagrams received together, the second fails and is gone once the context is changed |
| Differences.SwitchFailsOnHeldFrame | src/tcp.rs:29-30 | of two frames received together, the second fails once the context is changed, and goes on failing |

## Left out

- The ciphers of `safe_crypto` and the serialisation of general types: they are not part of this model; codecs and keys are values with stated laws. The length header is serialised concretely, as four little-endian bytes.
- The clock is read once per call; the code reads it once for every deque it checks and once more for the push.
- What reaches the receiver after a fatal write error on a stream: the end-to-end theorems and frame atomicity are about runs whose sender stops there, because the rest of the frame is discarded; conservation, freshness and termination hold beyond it.
- What follows the first reader error: the parse theorems go up to that error; `ErrorRepeatsIff` says what the next attempt does.
- SenderRuns.WritesTerminate: for contexts whose headers have the announced length, as those of every context with a partner have (`PairedHeadersHaveLength`); a context with empty headers could queue empty frames.
- ContextSwitch.StreamSwitchIsSafeIffInRuns: about contexts of the same header length that recognise neither header nor body of an earlier frame, as keyed contexts do; with no encryption at all on one side, bytes can pass for frames of the other.
- TcpReceiver.EverythingBeforeTheEnd: for streams without zero-length frames, because a zero-length frame can hide complete frames from the call that meets the end; `NoMessageMissedIff` says exactly when a call does so.
- TcpSender.FlushTerminates: needs at least one byte per accepted write, because the loop does not end otherwise, as `ZeroWritesMakeNoProgress` shows.
- The order of queued messages of different priorities across a context switch when the queue is not empty; `PushedGoesLastIff` says when a later message overtakes.
- The default values of the configuration.
- The sizes of the stack buffers, buffer capacities and the 64 KiB reading window: pieces have any size.
- `&mut` arguments of `handle_recv_res` and `handle_send_res` are passed in and returned.
- The uninitialised socket, `connect`, `bind`, polling, TTL, linger, `take_error`, shutdown on drop, the dispatching wrapper in `src/socket.rs` and the UDT code, which is not compiled: no message passes through any state of their own.
- Loss, duplication and reordering of datagrams by the network, and datagrams longer than the receive buffer.
