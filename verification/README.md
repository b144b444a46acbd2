# Portico, verified

A Dafny model of the concurrent and byte-level cores of portico, an HTTP/1.1 and WebSocket server
written in C, with proofs about every interleaving or every byte stream. `dafny verify dfyconfig.toml`
checks the whole project.

| files | what they model |
|---|---|
| `Mpsc`, `MpscInvariant`, `MpscTheorems`, `MpscOperations`, `Wakeup` | the lock-free queue between sender threads and an event thread, with its node pool; the eventfd that wakes the thread |
| `Aio`, `ThreadPool`, `ThreadPoolOperations`, `Uring` | completions of asynchronous file reads: coalesced wakeups, the worker pool, the io_uring rings |
| `Slots`, `SlotsInvariant`, `SlotsTheorems`, `SlotsOperations`, `SlotsSends`, `ConnHash` | the life cycle of connection slots: free stack, fd map, hash, reference counts, generations; the hash's buckets |
| `Masking`, `Frame` (module `Frames`), `Utf8` | WebSocket payload masking, frame parser and encoder, the UTF-8 table |
| `Reassembly`, `FrameAnswers`, `Reassembler`, `Stream`, `Receiver` | from received bytes to delivered messages, and what each frame is answered with |
| `OutQueue`, `Http`, `HttpConn` | the output queue, pipelined HTTP responses, file responses and streamed files |
| `Base64Url`, `Bits`, `Seqs`, `Common` | the base64url codec; bit and slice facts; shared definitions |

**Concurrent protocols** are transition systems. One atomic operation of the source (a load, a store, an
exchange, a compare-and-swap, a critical section) is one step of a total function `Step`; theorems
quantify over every sequence of actions, so over every interleaving of any number of threads. Steps are
sequentially consistent. Each system has one inductive invariant, split into predicates over the parts
of the state they read, and a ghost view that says where each node, slot or task is. Beside what holds in
every state there is what each operation achieves: from any reachable state a thread that takes only its own
steps completes its operation, with the effect stated in full.

**Sequential code** is classes and methods with loops, on arrays where the source works in place, proved
against specification functions about which the promised properties are proved separately.

**The environment** is nondeterministic: how many bytes a socket takes or gives, whether a write blocks or
fails, how long a file read is, whether a submission is refused, when the kernel completes an operation,
whether a close finds other references. The request parser and the application are
function parameters; what the application answers may depend on the connection and on the number of the
request in it.

Assumptions taken from the source: the node pool does not grow; a thread has at most 65536 slots (the pool
index has 16 bits) and every descriptor is below the size of the fd map; epoll registration, TLS set-up and
memory allocation succeed; the system hands out descriptors that are not in use; `max_message_size + 14`
fits in an `int`; ring sizes are powers of two and the completion ring is at least as large as the
submission ring; a failed `io_uring_enter` consumes nothing; a complete request at the front of the
receive buffer is parsed the same when more bytes follow; the application's callbacks are registered.

## Results that are exact conditions

- All accepted tasks are posted once every worker has exited if and only if no submission was accepted
  after the last worker left (`ThreadPool.NothingLeftBehind`): `tp_submit` does not look at `stop`, and
  `ThreadPool.LateSubmission` is a run in which a task is left behind.
- A queued send that is delivered reaches the life it was captured for if and only if its slot went through
  fewer than 2^32 lives in between, for the generation counter has 32 bits
  (`SlotsTheorems.DeliveredToCapturedLife`); `SlotsOperations.WrapIsReal` is a run in which it does not.
- If a connection arrived under a descriptor that is still registered, the old slot would be lost to the
  fd map (`SlotsTheorems.AcceptNeedsFreshFd`): slot ownership rests on the system's promise about descriptors.
- The "frame exceeds max_message_size" exit of the receive loop is taken exactly when the loop starts with a
  buffer that is full and already at least `max_message_size + 64` bytes
  (`ReceiveLoop.Receiver.HandleFrames`); a loop that starts with less never takes it.
- Encoding undoes base64url decoding exactly on texts whose unused bits are zero; the decoder accepts the
  others too (`Base64Url.CanonicalRoundTrip`, with an example in `Base64Url.NotCanonical`).
- The frame parser accepts a length in any of the three forms that hold it, not only the shortest
  (`Frames.ParsesSerialized`).

Where comments and code disagree the code is followed: the wakeup descriptor is called level-triggered in
src/aio/aio.c:87 but is registered edge-triggered (src/ws/ws_event_thread.c:313), and `Aio` models the edge.

## Model

| member | source | states |
|---|---|---|
| MpscTheorems.DeliveredInOrder | src/ws/ws_mpsc.c:355-442 | in every interleaving of any number of producers with the consumer, the messages dequeued are a prefix of the order in which enqueues exchanged `tail` |
| MpscOperations.OrderIsSent | src/ws/ws_mpsc.c:477-506 | in every interleaving the i-th message of that order is the one its producer was given by the step that began the send; the producer has not been idle since, and its own exchange put the message there |
| MpscOperations.SendAlone | src/ws/ws_mpsc.c:286-378 | with the mutex free and a node in the pool, eleven steps of its own append exactly the producer's message, take one node and leave everybody else where they were |
| MpscOperations.SendRefused | src/ws/ws_mpsc.c:286-349 | with the pool empty a send leaves the state as it was |
| MpscTheorems.NullMeansAllDelivered | src/ws/ws_mpsc.c:396-399 | with no producer between exchange and link, dequeue sees an empty queue only when everything was delivered |
| MpscOperations.DequeueAlone | src/ws/ws_mpsc.c:380-442 | in that situation four to six steps of the consumer alone deliver exactly the next message |
| MpscOperations.DequeueReturns | src/ws/ws_mpsc.c:327-442 | and with the mutex free its further steps put the node back on top of the free list, counted |
| MpscTheorems.SpinsAwaitAProducer | src/ws/ws_mpsc.c:403-438 | both spin loops wait only for a producer that has exchanged and not yet linked, and its next step ends the wait |
| MpscTheorems.EveryNodeInOnePlace | src/ws/ws_mpsc.c:286-442 | every pool node is on the free list, on the queue, with one producer or with the consumer, and in exactly one of these |
| MpscTheorems.FreeNodesIsLength | src/ws/ws_mpsc.c:286-349 | whenever the lock is free, `free_nodes` is the length of the free list |
| MpscTheorems.PendingLinkHitsTheQueue | src/ws/ws_mpsc.c:355-378 | a `prev_tail->next` store still to come goes into a node on the queue that has no link yet, never into a recycled one |
| MpscInvariant.StepInv | src/ws/ws_mpsc.c:286-442 | every step of every thread keeps the invariant behind these results |
| MpscInvariant.InitInv | src/ws/ws_mpsc.c:165-221 | a newly created queue satisfies it |
| Wakeup.NoMessageStranded | src/ws/ws_event_thread.c:541-573 | while the event thread waits with a message not delivered, a wakeup is pending or some sender has still to link its message or to write the eventfd |
| Wakeup.StepInv | src/ws/ws_event_thread.c:541-573 | every step of senders and event loop keeps the invariant, on top of the queue's own steps |
| Wakeup.EmptyAnnounced | src/ws/ws_event_thread.c:564-569 | when the loop finds the queue empty, everything is delivered or some sender will still write the eventfd |
| Wakeup.SendAnnounces | src/ws/ws_server.c:687-700 | a sender's own steps enqueue its message and leave a wakeup pending |
| Wakeup.WakeDeliversAll | src/ws/ws_event_thread.c:552-573 | from every reachable state with a wakeup pending and no sender halfway, the event thread's own steps deliver everything, use up counter and edge and return to waiting |
| Wakeup.LeavesAfterNothing | src/ws/ws_event_thread.c:564-569 | the loop is left only after a look that found nothing |
| Wakeup.TimeoutDelivers | src/ws/ws_event_thread.c:539-545 | a timeout delivers the next ten messages, or all if there are fewer |
| Aio.NoLostWakeup | src/aio/aio.c:58-128 | outside drain, a waiting completion means a pending wakeup, a poster inside `post_completion`, or a kernel signal on its way |
| Aio.PostAlone | src/aio/aio.c:74-89 | two steps of a poster alone queue its completion if the flag was set, three queue it and write the eventfd if it was not |
| Aio.WakeupComes | src/aio/aio.c:58-128 | from every reachable state steps of posters and kernel alone finish what they have begun, and then whatever waits outside drain has a wakeup pending |
| Aio.FiredInOrder | src/aio/aio.c:98-128 | callbacks fire once each in the order their completions were queued, and none is lost |
| Aio.DrainFiresAll | src/aio/aio.c:98-128 | one undisturbed drain reaps the ring, fires every callback in order and clears counter and flag |
| Aio.StepInv | src/aio/aio.c:58-128 | every step of posters, kernel and drainer keeps the invariant |
| ThreadPool.EveryTaskInOnePlace | src/aio/aio_threadpool.c:43-86 | every accepted task is queued, running, completed or fired, exactly one of these, and no other task is anywhere |
| ThreadPool.PostedOnce | src/aio/aio_threadpool.c:43-63 | no task is posted or fired twice |
| ThreadPool.DepthAndOrder | src/aio/aio_threadpool.c:65-86 | `depth` is the queue length, within a non-zero bound, and tasks start in the order accepted |
| ThreadPoolOperations.SubmitExactly | src/aio/aio_threadpool.c:65-86 | in every reachable state a submission is accepted if and only if the pool is unbounded or the queue shorter than the bound; it is then last in the queue and one sleeper is woken; a refused one changes nothing |
| ThreadPoolOperations.WorkerRunsAll | src/aio/aio_threadpool.c:43-63 | a worker's own steps run and post everything queued, in order, announce it, and end asleep, or gone when the pool is stopped |
| ThreadPool.NoWorkForSleepersOnly | src/aio/aio_threadpool.c:43-86 | queued work always has a worker that is awake, unless all have exited |
| ThreadPool.CompletionsAreAnnounced | src/aio/aio_threadpool.c:43-63 | a completed task waiting for its callback is announced or about to be |
| ThreadPool.NothingLeftBehind | src/aio/aio_threadpool.c:43-107 | after the last worker's exit everything accepted was posted, exactly when nothing was accepted later |
| ThreadPool.LateSubmission | src/aio/aio_threadpool.c:65-86 | a run in which a task is accepted after that and never posted |
| ThreadPoolOperations.DestroyPostsAll | src/aio/aio_threadpool.c:88-107 | from every reachable state, after the stop flag the workers' own steps make all of them leave, with every task accepted before posted |
| ThreadPool.StepInv | src/aio/aio_threadpool.c:43-107 | every step of submitters, workers, drainer and destroy keeps the invariant |
| Uring.Ring.constructor | src/aio/aio_uring.c:171-180 | rings of any power-of-two sizes start empty at any counter value |
| Uring.Ring.PendingCount | src/aio/aio_uring.c:86-87 | `tail - head` modulo 2^32 is the number of entries waiting, whatever the counters' true values |
| Uring.Slot | src/aio/aio_uring.c:93-93 | masking a wrapped 32-bit counter names the entry of the true counter |
| Uring.Ring.Publish | src/aio/aio_uring.c:93-104 | the new entry is behind all waiting ones and none of them is overwritten |
| Uring.Ring.Enter | src/aio/aio_uring.c:106-106 | the call takes nothing or the oldest entry, found through the index array, and keeps the conservation |
| Uring.Ring.Offer | src/aio/aio_uring.c:104-111 | after a failed enter the submission ring and the accepted operations are what they were; the kernel may complete operations meanwhile |
| Uring.Ring.Submit | src/aio/aio_uring.c:79-114 | accepted exactly when fewer than `sq_entries` operations are outstanding and the kernel does not fail, with completions posted at any point of the call, before `inflight` is incremented too |
| Uring.Ring.Post | src/aio/aio_uring.c:83-85 | whenever the kernel completes an operation, inside a submission too, the completion ring has room |
| Uring.Ring.Reap | src/aio/aio_uring.c:116-135 | every completion posted before the call is handed on, once and in order, while the kernel posts more |
| Uring.AccountPublish | src/aio/aio_uring.c:93-104 | conservation: published operations are those in the ring, in the kernel, completed and reaped, and never more than `sq_entries` are outstanding |
| Uring.AccountPost | src/aio/aio_uring.c:83-85 | a completion keeps this conservation |
| Uring.AccountReap | src/aio/aio_uring.c:121-133 | reaping keeps this conservation |
| SlotsTheorems.SlotsPartition | src/ws/ws_message_processor.c:66-135 | between operations each slot is free, registered or retired, exactly one, and the free stack has no index twice |
| SlotsTheorems.RegisteredUnderOwnFd | src/ws/ws_event_thread.c:51-95 | every registered slot is the one its fd maps to, and the hash agrees |
| SlotsTheorems.ReusedOnlyUnreferenced | src/ws/ws_connection.c:204-226 | a slot about to be initialised is referenced by no thread and reached from no table |
| SlotsTheorems.RetiredCounts | src/ws/ws_connection_handler.c:696-710 | a retired slot's reference count is the number of threads still holding it |
| SlotsOperations.AcceptOpens | src/ws/ws_message_processor.c:66-135 | accept takes the top of the free stack into a new life, entered in both tables, whatever sender threads do between its steps |
| SlotsOperations.CloseRecycles | src/ws/ws_connection_handler.c:640-705 | closing, from either side and amid sender steps, with no reference left at the release, wipes the slot and puts it on the free stack, and both tables forget it |
| SlotsOperations.CloseRetires | src/ws/ws_connection_handler.c:640-710 | closing, from either side and amid sender steps, with a reference left at the release, leaves the slot retired and in no table |
| SlotsTheorems.RetiredForever | src/ws/ws_connection_handler.c:706-710 | a slot that is retired between two operations of any run is retired, in the same life, after every continuation of that run |
| SlotsTheorems.DeliveredToCapturedLife | src/ws/ws_mpsc.c:707-730 | a queued text or binary send that is delivered reaches the slot and life it was captured for if and only if its slot had fewer than 2^32 lives in between |
| SlotsSends.DispatchExactly | src/ws/ws_mpsc.c:707-730 | a queued send is delivered if and only if its slot is open in the captured life or a multiple of 2^32 lives later and its descriptor leads to an open connection; otherwise it is dropped |
| SlotsSends.SendReaches | src/ws/ws_mpsc.c:707-730 | so a send whose connection is still there and open reaches that connection |
| SlotsSends.SendAlone | src/ws/ws_server.c:667-706 | a sender's own steps queue exactly one message, with the generation of the connection it found, and give back the reference; for a connection that is not open, or none, they leave no trace |
| SlotsSends.LookAlone | src/ws/ws_connection.c:140-165 | a thread that only looks a connection up leaves no trace |
| SlotsSends.StateDecides | src/ws/ws_server.c:667-706 | the state the protocol has set decides between these two |
| SlotsOperations.WrapIsReal | src/ws/ws_connection.c:207-211 | a legal run in which the generation comes round after 2^32 lives and a send reaches the wrong one |
| SlotsTheorems.AcceptNeedsFreshFd | src/ws/ws_event_thread.c:51-67 | accepting under a registered fd loses the old slot, so fresh descriptors are needed |
| SlotsInvariant.StepInv | src/ws/ws_connection.c:204-319 | every step of event thread and senders keeps the invariant |
| SlotsInvariant.InitInv | src/ws/ws_event_thread.c:269-282 | the initial free stack satisfies it |
| ConnHash.Hash.Insert | src/ws/ws_connection.c:69-112 | one entry more, for an fd that has one already too; the entries stay a map when the fd is new |
| ConnHash.Hash.Find | src/ws/ws_connection.c:114-138 | the linear search returns an entry of the fd, or nothing exactly when there is none; on a map, its binding |
| ConnHash.Hash.Remove | src/ws/ws_connection.c:167-198 | moving the last entry into the gap removes exactly one entry of the fd; -1 exactly when there was none |
| ConnHash.LaidRemove | src/ws/ws_connection.c:178-193 | after that move every other entry is still in the bucket of its fd, as often as before |
| Masking.MaskedTwice | src/ws/ws_frame.c:126-220 | unmasking is masking again |
| Masking.BlockMasked | src/ws/ws_frame.c:127-139 | XOR of a block as one word with the broadcast key equals XOR of each byte with `key[i mod 4]`, at any width |
| Masking.UnmaskAvx2 | src/ws/ws_frame.c:127-150 | the 32-byte, 4-byte and byte loops together mask byte by byte, and touch nothing else |
| Masking.UnmaskSse2 | src/ws/ws_frame.c:154-180 | the same for the 16-byte loop |
| Masking.UnmaskScalar | src/ws/ws_frame.c:183-198 | the same for the 4-byte loop |
| Masking.Unmask | src/ws/ws_frame.c:200-220 | the choice of loop does not matter |
| Frames.ParseHeader | src/ws/ws_frame.c:34-114 | header fields, need-more and error verdicts as specified, in the source's order of checks |
| Frames.ParseFrame | src/ws/ws_frame.c:222-262 | a complete frame is reported with its length, its payload unmasked where it lies and no other byte changed; otherwise the buffer is untouched |
| Frames.ParsesSerialized | src/ws/ws_frame.c:34-114 | every masked frame within the limit, in any length form and followed by anything, is read back and exactly its bytes consumed |
| Frames.ParsedIsSerialized | src/ws/ws_frame.c:34-114 | conversely every reported frame is such a serialization |
| Frames.VerdictIsStable | src/ws/ws_frame.c:222-262 | a frame or an error does not change when more bytes arrive |
| Frames.BadExactly | src/ws/ws_frame.c:34-114 | what is an error, byte by byte: a reserved bit, a missing mask bit, or a length over the limit as soon as it has arrived |
| Frames.CompleteExactly | src/ws/ws_frame.c:34-262 | what is a frame, byte by byte, for each of the three length forms |
| Frames.WaitingIsShort | src/ws/ws_frame.c:222-262 | what waits for more is shorter than the limit plus 14 |
| Frames.Encode | src/ws/ws_frame.c:268-322 | the encoder writes FIN, opcode, the shortest length form and the payload |
| Frames.EncodedExactly | src/ws/ws_frame.c:268-322 | these bytes, written out for each range of lengths |
| Frames.EncodeParse | src/ws/ws_frame.c:268-322 | an encoded frame, masked with any key, parses to FIN, the same opcode and payload, across all length boundaries |
| Utf8.EncodingAccepted | src/ws/ws_utf8.c:30-37 | the table accepts the encoding of every scalar value and decodes its code point |
| Utf8.AcceptsIffWellFormed | src/ws/ws_utf8.c:12-44 | the table accepts exactly the concatenations of UTF-8 encodings of scalar values |
| Utf8.Valid | src/ws/ws_utf8.c:39-44 | the validation loop decides well-formedness |
| Reassembly.AcceptedConforms | src/ws/ws_connection_handler.c:289-605 | if all frames are accepted, their data frames are whole messages and part of one (section 5.4 of RFC 6455), the messages are delivered in order, and each ping is answered with its payload |
| Reassembly.ConformingAccepted | src/ws/ws_connection_handler.c:289-605 | conversely frames that form messages, with control frames anywhere, are all accepted and deliver exactly these |
| Reassembly.StopsAtOneFrame | src/ws/ws_connection_handler.c:289-408 | a run ends at the first frame that is refused, which delivers nothing |
| FrameAnswers.CloseAnswered | src/ws/ws_connection_handler.c:343-394 | after any frames accepted so far: a close code from 1000-1003, 1007-1011 or 3000-4999 with a UTF-8 reason is echoed and reported, an empty close is answered with an empty one and reported as 1000, a bad code or a one-byte payload gets 1002, a bad reason 1007 |
| FrameAnswers.ControlRefused | src/ws/ws_connection_handler.c:294-300 | a fragmented or long control frame gets 1002 |
| FrameAnswers.PingAnswered | src/ws/ws_connection_handler.c:325-341 | a ping gets a pong with its payload, or the connection fails with the socket; a pong is handed on |
| FrameAnswers.DataAnswered | src/ws/ws_connection_handler.c:415-496 | a text or binary frame begins, is or interrupts a message, with 1007 for text that is not UTF-8 |
| FrameAnswers.ContinuationAnswered | src/ws/ws_connection_handler.c:499-590 | a continuation is stored, completes a message, gets 1009 when the message is too long or 1007 when it is not UTF-8, or fails outside a message |
| FrameAnswers.UnknownFails | src/ws/ws_connection_handler.c:400-405 | any other opcode fails the connection |
| Reassembly.DeliveredAreValid | src/ws/ws_connection_handler.c:415-590 | whatever the frames, delivered messages are within the limit and delivered text is well-formed |
| FrameHandler.Reassembler.ProcessFrame | src/ws/ws_connection_handler.c:289-408 | each frame has the specified effect, keeping total size within limit and buffer |
| FrameHandler.Reassembler.StartFrame | src/ws/ws_connection_handler.c:415-496 | a first or only frame is stored or delivered |
| FrameHandler.Reassembler.ContinueFrame | src/ws/ws_connection_handler.c:499-590 | a continuation is appended, delivered when final, refused when too big or not UTF-8 |
| FrameHandler.Reassembler.AppendFragment | src/ws/ws_connection_handler.c:525-547 | the fragment buffer grows as needed and then ends with the new payload |
| FrameHandler.Reassembler.CloseFrame | src/ws/ws_connection_handler.c:343-394 | close payloads are checked and answered as specified |
| Stream.SplitAppend | src/ws/ws_connection_handler.c:208-249 | parsing a longer stream continues where the shorter one left off |
| Stream.ChunkingIndependence | src/ws/ws_connection_handler.c:157-264 | any way of cutting a stream into reads ends in the state, deliveries and verdict of reading it whole |
| Stream.ReceivedAreValid | src/ws/ws_connection_handler.c:157-590 | for every byte stream, delivered messages are within the limit and delivered text is well-formed UTF-8 |
| Stream.ConformingBytes | src/ws/ws_connection_handler.c:157-590 | the bytes of frames that make up messages, with any keys and length forms, deliver exactly these messages and answer every ping |
| Stream.AcceptedBytes | src/ws/ws_connection_handler.c:157-590 | conversely, while a connection goes on, its input is such frames and the start of one more, and what was delivered is their messages |
| Stream.BadBytes | src/ws/ws_connection_handler.c:217-222 | bytes that are no frame end the connection behind accepted frames and do nothing else |
| Stream.StoppingBytes | src/ws/ws_connection_handler.c:234-247 | a frame that is not accepted ends it with its own verdict, and what follows is ignored |
| Stream.RestIsShort | src/ws/ws_connection_handler.c:208-249 | what is left over is shorter than the limit plus 14 |
| ReceiveLoop.Receiver.ParseBuffered | src/ws/ws_connection_handler.c:208-260 | one pass over the buffer leaves what the whole input leaves, the unfinished frame still masked |
| ReceiveLoop.Receiver.HandleFrames | src/ws/ws_connection_handler.c:157-264 | the loop ends where parsing all input at once ends, for any sizes of reads; it ends for want of a connection only when a read said so; the full-buffer exit happens only on a buffer full from the start, never on a settled one |
| ReceiveLoop.Receiver.constructor | src/ws/ws_connection.c:230-233 | a new connection has an empty buffer, in which no frame is waiting |
| Output.OutQueue.Drain | src/http/connection.c:118-128 | the queue is drained in order until it is empty, blocked or broken |
| Output.OutQueue.Append | src/http/connection.c:132-152 | refused exactly when the backlog would pass 4 MiB; otherwise the bytes queue behind the backlog |
| Output.OutQueue.Reserve | src/http/connection.c:140-148 | doubling ends with enough room within 4 MiB and the same contents |
| Output.OutQueue.Send | src/http/connection.c:159-176 | wire plus backlog is always all bytes handed over, in order; success hands over all, failure a prefix; a backlog has EPOLLOUT armed |
| Http.CutIsInput | src/http/connection.c:1114-1122 | the requests dispatched are successive pieces of the input |
| HttpConnection.HttpSlot.ResponsesInRequestOrder | src/http/connection.c:1002-1140 | between any events the output is one response per request in request order, then at most the beginning of one more |
| HttpConnection.HttpSlot.LastResponseCloses | src/http/connection.c:1124-1126 | a response without keep-alive is to the last request taken up, and the connection is closed or closes as soon as its backlog is written |
| HttpConnection.HttpSlot.NothingWaits | src/http/connection.c:1059-1080 | an open connection with nothing under way has answered every request, and holds at most an incomplete one, with at most 32 KiB of header |
| HttpConnection.HttpSlot.FileIsAwaited | src/http/connection.c:1019-1046 | a connection parked without a stream has exactly one read of its life in flight, for the whole of a file of at most 1 MiB |
| Http.ClosedWith | src/http/connection.c:1065-1080 | a connection that closes with nothing failed has sent a last response, cannot build one, or has sent the status for it: 400, 413, 501, 431 or 503 |
| HttpConnection.HttpSlot.StreamIsDriven | src/http/connection.c:844-946 | a live stream has a read in flight and no backlog, or a backlog with EPOLLOUT armed, and has sent exactly header and file up to its position |
| HttpConnection.HttpSlot.ContextsAccounted | src/http/connection.c:855-946 | every stream context ever allocated is live or freed, never both; on a free slot only those with a read in flight are live |
| HttpConnection.HttpSlot.HttpEvent | src/http/connection.c:1129-1140 | no request is dispatched and nothing sent while a response is under way or the connection is closing; otherwise none that is complete is left waiting |
| HttpConnection.HttpSlot.ProcessHttpBuffer | src/http/connection.c:1059-1127 | requests are dispatched one after the other until one parks the connection, none is complete, or there is a reason to close: a failed send or read, a last response, or a refusal already sent |
| HttpConnection.HttpSlot.Ask | src/http/connection.c:1083-1090 | the application is asked for the request at the front of the buffer, by its number |
| HttpConnection.HttpSlot.HandleRequest | src/http/connection.c:1081-1126 | one request is answered and consumed and the connection goes on, or parks the connection, or closes it for a reason; it goes on only after a response with keep-alive, and closes with bytes unsent only after a failure |
| HttpConnection.HttpSlot.ErrorClose | src/http/connection.c:187-205 | a status reply and then a close, deferred while there is a backlog |
| HttpConnection.HttpSlot.ServeFile | src/http/connection.c:1002-1055 | a file is streamed, read in the background, read on the spot when there is no backend or it refused, or refused; a response built on the spot comes from a read of the whole file, of at most 4 MiB |
| HttpConnection.HttpSlot.ReadFile | src/http/connection.c:1048-1054 | that response, built from exactly what the read of the whole file returned |
| HttpConnection.HttpSlot.FileEmit | src/http/connection.c:789-813 | the response is built from the bytes the read brought |
| HttpConnection.HttpSlot.FileReadComplete | src/http/connection.c:816-842 | the waiting connection gets the response built from the read, or status 500 and a close, and goes on with the requests behind it; any other life's connection is untouched |
| HttpConnection.HttpSlot.StreamStart | src/http/connection.c:951-995 | the header goes first and the connection is parked on the stream |
| HttpConnection.HttpSlot.StreamAdvance | src/http/connection.c:890-914 | the stream ends up reading, waiting for the socket, finished or cut off, for every short read, refusal and block; it is cut off only when a read or a send has failed |
| HttpConnection.HttpSlot.Pump | src/http/connection.c:894-913 | one turn of that loop waits, finishes, submits or hands over a chunk |
| HttpConnection.HttpSlot.ReadChunk | src/http/connection.c:907-912 | a chunk read on the spot moves the stream on, unless the read or the socket fails |
| HttpConnection.HttpSlot.NextChunk | src/http/connection.c:932-940 | the bytes a completed read brought are handed over behind everything sent before, unless the send fails; with the last of them the response is complete; the stream ends only then or after a failure |
| HttpConnection.HttpSlot.PutChunk | src/http/connection.c:910-912 | a chunk extends what was sent by the next file bytes, or by a prefix of them on failure |
| HttpConnection.HttpSlot.StreamFinish | src/http/connection.c:872-885 | a finished stream's response is its header and exactly the bytes asked for |
| HttpConnection.HttpSlot.StreamFail | src/http/connection.c:863-868 | a failed stream is detached and freed once |
| HttpConnection.HttpSlot.StreamChunkComplete | src/http/connection.c:917-946 | the connection's own stream hands over the bytes read, unless the send fails, and is freed after a failed read; it closes with everything written; for a connection that is gone only the context is freed |
| HttpConnection.HttpSlot.Writable | src/http/connection.c:210-218 | a backlog is written; a drained socket resumes the stream or finishes a deferred close |
| HttpConnection.HttpSlot.OnReadable | src/ws/ws_event_thread.c:584-591 | afterwards no complete request waits unless a response is under way or the connection is closing; a peer that is gone closes it; otherwise it closes for a stated reason, with everything written unless something failed |
| HttpConnection.HttpSlot.OnWritable | src/ws/ws_connection_handler.c:607-638 | a backlog is written until it is gone or the socket blocks; it closes only if the socket is broken, or for a stated reason with everything written unless something failed |
| HttpConnection.HttpSlot.OnHangup | src/ws/ws_event_thread.c:599-603 | a hang-up closes the connection in any phase; with the last reference only stream contexts with a read in flight remain |
| HttpConnection.HttpSlot.StreamAbort | src/http/connection.c:224-229 | teardown frees the stream unless its read is in flight |
| HttpConnection.HttpSlot.Close | src/ws/ws_connection_handler.c:682-711 | with the last reference the slot is wiped and a stream without a read freed; otherwise the slot is retired |
| HttpConnection.HttpSlot.Open | src/ws/ws_connection.c:204-252 | a new life starts idle under a new generation |
| Base64Url.EncodedSize | src/acme/acme_base64url.c:11-13 | the closed formula is the encoded length |
| Base64Url.RoundTrip | src/acme/acme_base64url.c:10-70 | decoding undoes encoding, for every byte string |
| Base64Url.CanonicalRoundTrip | src/acme/acme_base64url.c:37-70 | encoding undoes decoding exactly on texts whose unused bits are zero |
| Base64Url.NotCanonical | src/acme/acme_base64url.c:56-60 | a text that decodes and does not encode back |
| Base64Url.EncodesNumber | src/acme/acme_base64url.c:10-35 | the text is the same number in base 64 as the bytes in base 256, up to the filling zero bits |
| Base64Url.Encode | src/acme/acme_base64url.c:10-35 | refused exactly when text and terminator do not fit; writes both and nothing more |
| Base64Url.DecodeTable | src/acme/acme_base64url.c:38-40 | the reverse table inverts the alphabet and is -1 elsewhere |
| Base64Url.AlphabetExactly | src/acme/acme_base64url.c:7-8 | the alphabet is A-Z, a-z, 0-9, '-' and '_', in this order |
| Base64Url.Decode | src/acme/acme_base64url.c:37-70 | succeeds exactly when the length is possible, all characters are in the alphabet and the bytes fit; writes these bytes and nothing more |

## Left out

- C11 memory orderings: steps are sequentially consistent.
- Out-of-memory branches, epoll and eventfd errors, and a refused `EPOLL_CTL_MOD`.
- Node-pool and buffer-pool growth, which the source switches off, and queue destruction.
- The hash function itself, the bucket locks, and the hash across several event threads: the slot model uses the map the buckets refine, for one event thread.
- HttpConnection.HttpSlot.FileReadComplete: the generation is an unbounded counter here; the slot model has its 32-bit wrap.
- HttpConnection.HttpSlot.HttpEvent: the receive buffer is a sequence; its growth and its 16 MiB bound are not modelled.
- HttpConnection.HttpSlot.Open: the first dispatch between WebSocket and HTTP and the TLS handshake before it are not modelled.
- A stream whose read is over when its connection is retired is never freed by the source; it stays in the model's heap too.
- ReceiveLoop.Receiver.HandleFrames: bytes pipelined behind a WebSocket handshake wait in the buffer for the next read, as in the source; the contract covers that start but promises a settled buffer only after a read.
- Whether the socket takes a pong is given per pong by a parameter; close frames are sent without looking at the result, as in the source.
- Frames.Encode: a null payload with a non-zero length is not modelled.
- WebSocket data frames through the output queue, control frames written straight to the socket, pings and keep-alive reaping.
- Server-initiated close, ping and pong messages carry no generation and are outside the delivery result.
- TLS, hot swap of certificates and routes, file paths and ranges, header construction, picohttpparser, cJSON, ACME, configuration, statistics and logging.
