# Verified model of a Rust HTTP engine

This project models the moving parts of a Linux HTTP server written in Rust (an epoll reactor, a
work-stealing task pool, an HTTP text layer, a `sendfile` loop and a benchmark recorder) and proves
what they keep over whole runs. `dafny verify dfyconfig.toml` checks all of it.

## What is modelled

* **Task pool.** `WorkQueue` has the queue objects, the aliasing wiring built by `new`, and `push` and
  `pop` on genuinely shared objects. `StealPool` has the same pool as a step system in which one probe of
  one queue is one step and every schedule of worker steps, pushes and flag clearing is a run; `EmptyPop`
  says when a `pop` that returns nothing can be trusted;
  `SoloScanIsPop` says that an undisturbed scan of the step system is the sequential `Pop`. `PoolShutdown`
  proves how the workers end: by the flag, or by queued `Shutdown` tasks, and exactly when they do.
* **Connection table and event loop.** `Kernel` is the operating system: open descriptors with identities
  (numbers are reused, identities are not), one epoll instance, and system calls that may fail at any time.
  `EpollBackend` keeps the table beside the interest set. `EventLoop` is the reactor: it accepts, reads,
  answers and closes over batches of events, leaves through any `?`, and drops the backend. `EventTrace`
  says, on the kernel's states and its log of system calls, what each event has to do. Every reported
  event is dispatched once and in order, with its flags, none is stale, and each does exactly that; everything read is answered once, on the
  connection it came from, with the response the handlers give for it; counters and wires agree with the
  completed requests; and at the end every client has been closed once, except those the kernel or a failed
  registration kept. A panic in the static handler ends the process instead, and exactly when it does is
  proved too. `Completions` has the byte counter and the wires, `Closings` the log of closes.
* **HTTP text.** `HttpResponses` has the builders and the serializer; header order is arbitrary, as in a
  hash map. `MessageReader` is a reader written from RFC 9112, with no reference to the serializers.
  `ResponseStream` proves that the reader recovers each response exactly when it is framed, and a stream of
  framed responses exactly when each was written whole; `Handlers` proves that every response of the two
  handlers is framed, and `Routes` says what a reader finds in each: status, reason, fields and body.
  `UrlDecoding` and `HttpRequests` do the request side: percent-decoding, the query
  string, the header map.
* **File transfer and benchmark.** `SendFile` is the `sendfile` loop against a system call that may send
  less, nothing or fail. `BenchStats` has the recorder, alone and interleaved, its percentiles, and the
  request it sends.

A Rust object that is changed in place is a class here, and each of its methods is proved against a
function on values (`PopFirst`, `Serialize`, `Params`, `Decoded`, ...) or against a predicate on the state
before and after; the theorems are about those. `event_loop` and `handle_request` are each split into
several methods, one for each arm or loop.

### What the kernel is assumed to do

`accept` and `epoll_create1` return a number that is not open. ADD fails on a member, on a closed
descriptor and on the epoll descriptor itself; MOD and DEL fail on a non-member; each may fail otherwise
too. One wait reports distinct members, at most as many as the buffer holds, each with the data it was
registered with. Closing a descriptor removes it from the epoll instance. A close that fails may or may
not have released the descriptor. A write takes some prefix of the buffer or fails.

### Where the code differs from what one might expect

* `ReliableIff`: a `pop` that returns nothing means in every run that all queues are empty if and only if
  nothing is pushed meanwhile except into the queue its scan reaches last. `ScanIsNoSnapshot` is a run in
  which a push behind the scan is missed; `EmptyHandedPop` says what is left in each queue: the tasks pushed
  behind the worker's probe of it and not yet taken.
* `FreshOkIsNotFramed`: `HttpResponse::ok()` without a body carries no length and does not delimit itself.
* `WithHeaderKeepsFramingIff`: the header map is case-sensitive and HTTP is not. Setting a header keeps a
  response framed exactly when it is no transfer coding and, if it is a length in whatever letters, says
  how long the body is. `RespelledLengthIsRejected` is a response that a reader rejects.
* `ReadsBackIff`: nothing stops a caller from putting delimiters into a header. A response is read back as
  itself if and only if it has none where they do not belong and is framed.
* `RefusesIff`: in static mode a request for a file that exists and cannot be mapped, such as an empty one
  (src/file/mmap.rs:28-30), ends the whole event loop through `?` (src/worker/reactor.rs:277 and 191), and
  nothing else makes the handler end it.
* `Utf8ComesBackIffAscii`: the decoder turns each escaped octet into one character, so an escaped UTF-8
  text comes back exactly when it is ASCII.
* `AcceptsIllFormedIffSigned`: the decoder accepts texts that RFC 3986 does not, exactly those in which some
  percent sign is followed by a plus sign; `%+7` is one (`SignedEscapeIsAccepted`).
* The metrics document goes out as `text/plain; charset=utf-8`: `text` replaces the type set before it
  (src/worker/reactor.rs:316-318).
* `WriteResponse`: a short write is ignored and the full length is counted. `bytes_sent` is what the kernel
  took if and only if every write was whole (`TakenIsSentIffWhole`), and so does a connection read back if
  and only if every write on it was whole (`ConnectionReadsBackIff`). `ShortWriteMisleads` is a short write
  that spoils both.
* `AbortsIff`: `&path[1..]` (src/worker/reactor.rs:270) panics on a clean path that is empty, such as that of
  `?x` (`EmptyPathAborts`), or begins with a character of more than one byte. The release profile sets
  `panic = "abort"` (Cargo.toml:74), so the process then ends without the drop. A run ends like that if and
  only if the mode is static and some octets it read parse to such a path.

## Model

| member | source | states |
|---|---|---|
| WorkQueue.ArrayQueue.constructor | src/worker/queue.rs:12-16 | a new queue is empty and has the given, positive capacity |
| WorkQueue.ArrayQueue.Push | src/worker/queue.rs:19-21 | below capacity the item is appended; at capacity it is handed back and nothing changes |
| WorkQueue.ArrayQueue.Pop | src/worker/queue.rs:24-26 | an empty queue gives nothing; otherwise the oldest item leaves and the rest keep their order |
| WorkQueue.LockFreeQueue.Push | src/worker/queue.rs:19-21 | through a handle, the effect on the one shared object |
| WorkQueue.LockFreeQueue.Pop | src/worker/queue.rs:24-26 | through a handle, the effect on the one shared object |
| WorkQueue.ProbesCoverEveryQueueOnce | src/worker/queue.rs:89-97 | own queue first, then the others by number: a scan of n probes reaches each of n queues exactly once |
| WorkQueue.PopFirstTakesHead | src/worker/queue.rs:114-130 | a scan takes the head of the concatenation of the queues in probe order, and nothing exactly when all are empty |
| WorkQueue.DrainTakesEverything | src/worker/queue.rs:114-130 | scans repeated until one fails return that whole concatenation and leave every queue empty |
| WorkQueue.SequentialDrain | src/worker/queue.rs:114-130 | on values: worker w, undisturbed, gets queue w and then queues 0..n-1 without w, each in FIFO order, and all end empty |
| WorkQueue.WorkStealingQueue.Push | src/worker/queue.rs:109-111 | only the local queue changes; a full one hands the task back |
| WorkQueue.WorkStealingQueue.Pop | src/worker/queue.rs:114-130 | on aliased queue objects, result and new contents of all queues are those of one scan |
| WorkQueue.WorkStealingQueue.Steal | src/worker/queue.rs:122-129 | the same with an empty local queue: the loop over the others completes the scan |
| WorkQueue.WorkStealingQueue.StealFrom | src/worker/queue.rs:123-126 | one probe takes the head of one shared object and leaves the rest of the pool alone |
| WorkQueue.WiredProbesAreDistinct | src/worker/queue.rs:88-103 | in a wired pool no scan meets one queue object twice |
| WorkQueue.ScanSeesWholePool | src/worker/queue.rs:88-103 | what a worker scans is every queue of the pool, through aliases, in its probe order |
| WorkQueue.New | src/worker/queue.rs:79-106 | n fresh empty queues of the given capacity, wired: worker w owns queue w and its scan reaches all others by number |
| WorkQueue.NewQueues | src/worker/queue.rs:83-86 | n distinct fresh empty queues |
| WorkQueue.SharedQueues | src/worker/queue.rs:91-97 | handles to all queues but one, in order |
| WorkQueue.ScanMeets | src/worker/queue.rs:88-103 | each shared object is met by each worker's scan, at the probe with its number |
| WorkQueue.EmptyForEveryWorker | src/worker/queue.rs:88-103 | if one worker finds nothing, no worker finds anything in any object |
| WorkQueue.DrainScan | src/worker/queue.rs:114-130 | `pop` repeated on one handle until it returns nothing takes and leaves what the drain on values does |
| WorkQueue.DrainAll | src/worker/queue.rs:79-130 | on the wired, aliased objects worker w gets queue w and then queues 0..n-1 without w, each in FIFO order, and afterwards every object is empty for every worker |
| StealPool.StepWorker | src/worker/reactor.rs:214-231 | one step of a worker keeps the pool well formed: capacities, program counters |
| StealPool.StepPush | src/worker/queue.rs:109-111 | a push by anyone, to any queue, keeps capacities |
| StealPool.Next | src/worker/reactor.rs:214-231 | every action keeps the pool well formed and its shape, and only clearing the flag lowers it |
| StealPool.Run | src/worker/reactor.rs:214-231 | so does every schedule |
| StealPool.Start | src/worker/reactor.rs:69-94 | the pool that `start` sets up: flag up, queues and log empty, every worker about to check the flag |
| StealPool.NextEffect | src/worker/queue.rs:114-130 | a step adds one task at the back of one queue, takes the front of one queue for a probing worker, or leaves all queues alone |
| StealPool.RunInOrder | src/worker/queue.rs:114-127 | between any two points of a run, what was removed from a queue and what it then holds are what it held and what was pushed, in order |
| StealPool.OrderSurvivesStealing | src/worker/queue.rs:114-127 | in every run the removals from a queue followed by its contents are its accepted pushes in order, and each worker's share is a subsequence of them |
| StealPool.TaskConservation | src/worker/queue.rs:109-130 | in every run the accepted tasks are, as a multiset, the queued ones plus those the n workers took; no queue outgrows its capacity |
| EmptyPop.ScanLooks | src/worker/queue.rs:114-130 | under any interleaving a worker that goes on past a probe, or gives up, has found each queue so far empty at its probe of it |
| EmptyPop.EmptyHandedPop | src/worker/queue.rs:114-130 | when a pop comes back empty-handed, under any interleaving, each queue was empty at the worker's probe of it and holds exactly the tasks pushed behind that probe and not yet taken |
| EmptyPop.UnpushedIsEmpty | src/worker/queue.rs:114-130 | a queue into which nothing is pushed is then empty |
| EmptyPop.OvertakenMisses | src/worker/queue.rs:122-129 | a push into any queue but the last of the scan, once the scan is past it, is missed by an otherwise undisturbed pop |
| EmptyPop.ReliableIff | src/worker/queue.rs:114-130 | with pushes into a given set of queues only, an empty-handed pop means in every run that all n queues are empty, if and only if the set has no queue of the pool but the one the scan reaches last |
| EmptyPop.ScanIsNoSnapshot | src/worker/queue.rs:114-130 | a concrete run in which a pop returns nothing while a queue holds a task |
| StealPool.SoloScanIsPop | src/worker/queue.rs:114-130 | an undisturbed scan of the step system takes at most n steps and ends as the sequential pop does |
| StealPool.SoloRoundIsPop | src/worker/reactor.rs:214-215 | while the flag is up an undisturbed worker makes one pop of the pool as it stands, in at most n + 1 steps |
| StealPool.PushedTaskIsTaken | src/worker/reactor.rs:69-94 | in the pool that was started, a task pushed to any queue is taken by any worker that is left alone, in at most n + 1 steps |
| PoolShutdown.NextTakes | src/worker/reactor.rs:214-215 | with the flag down, tasks taken plus scanning workers never grows |
| PoolShutdown.ExitsInTime | src/worker/reactor.rs:214-231 | with the flag down, a worker is gone after a number of its own steps that its position bounds |
| PoolShutdown.BoundedOverrun | src/worker/reactor.rs:214-231 | after the flag is cleared the workers together take at most one task for each that was scanning, and each exits within n + 2 of its own steps, whatever is pushed |
| PoolShutdown.NextBalance | src/worker/reactor.rs:221-224 | without pushes, queued Shutdowns minus workers that need one never shrinks, and stays equal while the flag is up |
| PoolShutdown.CleanScanFindsShutdown | src/worker/queue.rs:122-129 | with enough Shutdowns queued, a scan that found all earlier queues empty finds the last one non-empty |
| PoolShutdown.NoFreshPopFails | src/worker/queue.rs:114-130 | once pushes have stopped and enough Shutdowns are queued, no pop started afterwards returns nothing |
| PoolShutdown.NextMeasure | src/worker/reactor.rs:214-231 | every step of a live worker then decreases a natural number that no other action increases |
| PoolShutdown.ShutdownsEndThePool | src/worker/reactor.rs:214-231 | in every fair infinite run without pushes, enough Shutdowns end all workers, whoever takes whose |
| PoolShutdown.NextStepsLeft | src/worker/reactor.rs:214-231 | with the flag down every step of a live worker uses up one of finitely many steps left, even under pushes |
| PoolShutdown.ClearedFlagEndsThePool | src/worker/reactor.rs:214 | once the flag is down every fair run ends, whatever is pushed |
| PoolShutdown.PoolStopsIff | src/worker/reactor.rs:214-231 | a fair run without pushes ends if and only if enough Shutdowns are queued at its start or the flag is down at some time |
| Kernel.FdToU64 | src/net/epoll.rs:46 | the 64-bit value is the descriptor modulo 2^64 |
| Kernel.U64ToFd | src/net/epoll.rs:202 | the descriptor is the 64-bit value modulo 2^32 |
| Kernel.FdSurvivesU64 | src/net/epoll.rs:44-47 | a descriptor stored as 64-bit event data and cast back is the same descriptor, negative ones included |
| Kernel.Kernel.EpollCreate | src/net/epoll.rs:24-31 | a new descriptor with an empty interest set, or no change |
| Kernel.Kernel.EpollAdd | src/net/epoll.rs:50-52 | succeeds only on an open non-member, which becomes a member with the given event |
| Kernel.Kernel.EpollMod | src/net/epoll.rs:80-82 | succeeds only on a member, whose event is replaced |
| Kernel.Kernel.EpollDel | src/net/epoll.rs:95-97 | succeeds only on a member, which is removed; the call is logged either way |
| Kernel.Kernel.EpollWait | src/net/epoll.rs:109-125 | reports distinct members, no more than the buffer holds, with their flags and the data they were registered with; the wait, its room and its result are recorded |
| Kernel.Kernel.Report | src/net/epoll.rs:111-118 | what a wait writes into the buffer: distinct members with their data, in its first entries |
| Kernel.Kernel.Read | src/net/epoll.rs:128-144 | at most as many octets as the buffer holds, recorded for the connection they came from, or a failure; the call and its result are logged |
| Kernel.Kernel.Write | src/net/epoll.rs:147-163 | a prefix of the buffer is appended to what the connection is sent, or nothing happens |
| Kernel.Kernel.Accept | src/net/epoll.rs:166-178 | a number that is not open, with an identity never used before, or a refusal |
| Kernel.Kernel.CloseFd | src/net/epoll.rs:185-189 | on success the descriptor and its membership are gone; on failure perhaps; the call is logged |
| EpollBackend.EpollBackend.constructor | src/net/epoll.rs:24-40 | an empty table that agrees with an empty interest set |
| EpollBackend.EpollBackend.Register | src/net/epoll.rs:43-70 | table and interest set keep the same keys: both gain the descriptor or neither changes |
| EpollBackend.EpollBackend.Modify | src/net/epoll.rs:73-90 | the table is untouched and still agrees |
| EpollBackend.EpollBackend.Unregister | src/net/epoll.rs:93-106 | both lose the descriptor or neither does |
| EpollBackend.EpollBackend.CloseConnection | src/net/epoll.rs:181-193 | after any outcome table and kernel agree; close is attempted only after the DEL worked; the error says which call failed |
| EpollBackend.DelThenClose | src/net/epoll.rs:181-193 | the kernel's view of the two calls: kept, released, or deregistered with a failed close |
| EpollBackend.EpollBackend.ProcessEvents | src/net/epoll.rs:196-208 | the batch is exactly the descriptors and flags that one wait for up to `max_events` reported, in order; all distinct members of the table |
| EpollBackend.EpollBackend.DropOne | src/net/epoll.rs:226 | one descriptor of the table is dealt with, whatever fails, and the rest stay as they are |
| EpollBackend.DroppedStep | src/net/epoll.rs:225-227 | one more descriptor dealt with extends the record of the drop by its one DEL and at most one close |
| EpollBackend.RefusalIsLogged | src/net/epoll.rs:225-227 | whatever the drop does not release had its DEL or its close refused |
| EpollBackend.EpollBackend.Drop | src/net/epoll.rs:221-234 | each descriptor of the table gets one DEL and, if that worked, one close, whatever failed before; the epoll descriptor goes last; nothing else is closed |
| EventLoop.StaysCurrent | src/worker/reactor.rs:173-198 | handling one event leaves every later event of the batch naming the connection it was reported for |
| EventLoop.StillInTable | src/worker/reactor.rs:173-198 | when an event is reached its descriptor is still in the table |
| EventLoop.BatchStartsCurrent | src/worker/reactor.rs:171 | a batch starts out naming the listener and connections accepted by this loop |
| EventTrace.CoversOneMore | src/worker/reactor.rs:171-173 | a batch dispatched to event n extends the dispatched events, flags included, by the first n of that report |
| EventTrace.CoversFailure | src/worker/reactor.rs:171 | a wait that fails ends the loop with all earlier reports dispatched |
| EventTrace.OnlyAcceptsTwice | src/worker/reactor.rs:176-184 | accepting on leaves the clients accepted before watched for input, edge-triggered |
| EventTrace.TraceWaits | src/worker/reactor.rs:170-171 | waiting does not break the trace of events |
| EventTrace.TraceOneMore | src/worker/reactor.rs:173-198 | an event that does what it should, from where the last one ended, extends the trace of events and completed requests |
| EventLoop.HarmlessCall | src/worker/reactor.rs:170-198 | a system call that opens and closes nothing leaves ownership and the count of closes as they are |
| EventLoop.AcceptKeepsState | src/worker/reactor.rs:177-178 | an accepted client is the one client outside the table until it is registered |
| EventLoop.RegisterKeepsState | src/worker/reactor.rs:178-179 | after accept and registration the table is the listener and every open client, and the new one is watched for input, edge-triggered; if the registration failed that client is the one outside |
| EventLoop.CloseKeepsState | src/worker/reactor.rs:194 | a close, however it ends, loses at most the client it was called for |
| EventLoop.ReadAwaitsAnswer | src/worker/reactor.rs:188-190 | after a read exactly one piece of input awaits its answer |
| Completions.AnsweredOneMore | src/worker/reactor.rs:188-191 | a completed request answers the oldest unanswered read |
| EventLoop.WriteKeepsState | src/worker/reactor.rs:257-259 | a completed request keeps reads, wires and table in agreement and closes nothing |
| EventLoop.UnansweredKeepsState | src/worker/reactor.rs:246-257 | a request that failed keeps the table and sends nothing |
| EventLoop.AnsweredIsServed | src/worker/reactor.rs:187-191 | a read of up to 8192 octets followed by one complete answer is what a client with input is due; without the answer it is how the loop ends |
| EventLoop.DismissedIsServed | src/worker/reactor.rs:193-195 | the end of the stream or an error followed by a close is the other thing a client is due; a refused DEL or close is how the loop ends |
| Completions.CompletedExtend | src/worker/reactor.rs:256-259 | one more completed request adds its serialized length, its taken octets, and those octets to its own connection only |
| Completions.TakenIsSentIffWhole | src/worker/reactor.rs:257-259 | what the kernel took is at most what the byte counter says, and equal to it if and only if every write was whole |
| Completions.WireIsCut | src/worker/reactor.rs:256-257 | what a connection was sent is its framed responses, each cut where the kernel stopped |
| Completions.ConnectionReadsBackIff | src/worker/reactor.rs:256-257 | the octets on a connection are read as exactly the responses completed on it, in order, if and only if the kernel took each of them whole |
| Completions.ShortWriteMisleads | src/worker/reactor.rs:257-259 | a concrete short write that is counted in full and not read back |
| EventLoop.OpenAfterDrop | src/net/epoll.rs:221-234 | a tracked descriptor that is open after the drop had its DEL or close refused |
| EventLoop.EpollClosed | src/net/epoll.rs:229-232 | the epoll descriptor is open after the drop only if its close was refused |
| EventLoop.FinishedAfterDrop | src/net/epoll.rs:221-234 | after the drop the only clients open are the one the exit lost and those the kernel refused to let go |
| EventLoop.ClosedAfterDrop | src/net/epoll.rs:221-234 | after the drop each accepted client has been closed at most once in the whole run, and once unless it is still open |
| EventLoop.AfterDrop | src/net/epoll.rs:221-234 | both of these |
| EventLoop.AfterAbort | src/worker/reactor.rs:270 | after a panic everything that was open before the run is open, and so is the client being answered |
| EventLoop.OpeningClosesNothing | src/worker/reactor.rs:177-179 | a connection just accepted has not been closed before, whatever its number stood for |
| EventLoop.CloseLogsClient | src/worker/reactor.rs:194 | a client of the table is closed at most once and then leaves the table |
| Closings.OneMoreCall | src/net/epoll.rs:181-193 | one more call closes a connection for the first time or not at all |
| Closings.DropClosesOnce | src/net/epoll.rs:222-227 | a drop closes a connection exactly once if its descriptor could be deregistered, and otherwise not at all |
| EventLoop.Reactor.constructor | src/worker/reactor.rs:56-66 | counters at zero, nothing completed or handled |
| EventLoop.Reactor.Expected | src/worker/reactor.rs:241-277 | the answer is a panic exactly when the mode is static and the clean path cannot be sliced, and in static mode an error exactly when the file cannot be mapped |
| EventLoop.Reactor.EmptyPathAborts | src/worker/reactor.rs:269-270 | in static mode a request for `?x` has an empty clean path and panics |
| EventLoop.Reactor.GarbageIsBadRequest | src/worker/reactor.rs:250-253 | octets that do not parse are answered with a response that reads as 400 Bad Request |
| EventLoop.Reactor.StaticAnswers | src/worker/reactor.rs:246 | in static mode the file decides: an error, a response that reads as 404, or one that reads as 200 with the file's content, length and type |
| EventLoop.Reactor.DynamicAnswers | src/worker/reactor.rs:247 | in dynamic mode the route decides which document is read, as 200 and with its type, or 404; the documents are those for the counters as they stand |
| EventLoop.Reactor.ExpectedAt | src/worker/reactor.rs:237-259 | every completed request was answered for the octets it read and the counters after those before it |
| EventLoop.Reactor.StatsShowCounters | src/worker/reactor.rs:320-325 | in a whole run the k-th completed request, if it asks for the statistics, is told k requests and the octets of those before it |
| EventLoop.Reactor.NoneAborts | src/worker/reactor.rs:241-256 | no completed request was one that panics, or asked for a file that cannot be mapped |
| EventLoop.Reactor.AbortsIff | src/worker/reactor.rs:268-270 | a whole run ends in a panic if and only if some octets it read parse to a path that cannot be sliced, in static mode |
| EventLoop.Reactor.RefusesIff | src/worker/reactor.rs:268-277 | in static mode a whole run is ended by its handler if and only if some octets it read ask for a file that cannot be mapped |
| EventLoop.Reactor.RunEndsAsRead | src/worker/reactor.rs:241-277 | both of these, for every run of the event loop |
| EventLoop.Reactor.AnswerKeepsRunning | src/worker/reactor.rs:241-264 | whatever way a request goes, the run state is kept, and an error or a panic is the one that the octets read call for |
| EventLoop.Reactor.AnswerExplains | src/worker/reactor.rs:241-257 | which error ends a request is decided by the octets read and the counters |
| EventLoop.Reactor.ExpectedOneMore | src/worker/reactor.rs:241-256 | each completed request has the response its handler gives for the octets read and the counters at that time |
| EventLoop.Reactor.Respond | src/worker/reactor.rs:241-254 | the answer is the expected one for the octets, mode and counters: a framed response, a handler error, or a panic |
| EventLoop.Reactor.RespondBytes | src/worker/reactor.rs:241-256 | its octets are a serialization of that response in some header order |
| EventLoop.Reactor.WriteResponse | src/worker/reactor.rs:257-259 | one write; if it works the full length is counted and the taken prefix is on the connection; if not nothing changes |
| EventLoop.Reactor.HandleRequest | src/worker/reactor.rs:237-265 | the request counter exceeds the completed requests by one exactly when an error or a panic ended the handling; which of them, and the response completed, are the expected ones |
| EventLoop.Reactor.AcceptOne | src/worker/reactor.rs:177-183 | a client is accepted and watched for input, edge-triggered, or accept refused, or that one client is lost |
| EventLoop.Reactor.AcceptAll | src/worker/reactor.rs:176-184 | its last call is the accept that was refused, with every client accepted before watched and in the table, or the registration that failed |
| EventLoop.Reactor.CloseClient | src/worker/reactor.rs:193-195 | no descriptor but the client's is closed; a success closes it and removes it from the table |
| EventLoop.Reactor.AnswerClient | src/worker/reactor.rs:189-192 | the run state is kept; a success adds one completed response to that connection |
| EventLoop.Reactor.DismissClient | src/worker/reactor.rs:193-195 | the run state is kept; a success leaves the client closed |
| EventLoop.Reactor.ServeClient | src/worker/reactor.rs:185-197 | one read of up to 8192 octets; what was read is answered once on that connection, otherwise it is closed; the system calls made and the kernel state after them are fixed |
| EventLoop.Reactor.HandleEvent | src/worker/reactor.rs:173-198 | the listener is drained until accept refuses, a client with input is served, any other event changes nothing; or the event ends the loop with the error of its last call |
| EventLoop.Reactor.HandleNext | src/worker/reactor.rs:173-198 | the event is handled with the flags and for the connection it was reported with, does what it should from the state the last event left, and the rest of the batch stays current |
| EventLoop.Reactor.RecordEvent | src/worker/reactor.rs:173 | recording an event does not affect the loop |
| EventLoop.Reactor.HandleBatch | src/worker/reactor.rs:173-198 | the events are dispatched in order, all of them unless one ends the loop |
| EventLoop.Reactor.Round | src/worker/reactor.rs:171-198 | one wait, whose whole report is dispatched if the loop goes on |
| EventLoop.Reactor.RunLoop | src/worker/reactor.rs:170-199 | for any number of rounds: the run state holds at every loop head and exit, there is one wait for each round, the dispatched events are their reports, in order and once each, and every event did what it should, except that the last one may have ended the loop |
| EventLoop.Reactor.LoopAndDrop | src/worker/reactor.rs:170-202 | the same, followed by the drop on every way out except a panic |
| EventLoop.Reactor.RunAndDrop | src/worker/reactor.rs:168-202 | the same from a fresh backend; when the listener cannot be registered nothing is dispatched and nothing else is touched |
| EventLoop.Reactor.EventLoop | src/worker/reactor.rs:166-202 | a whole run, from creation of the epoll instance to its drop: no stale event, every reported event dispatched once and each doing what it should from where the one before it ended, every read answered once with the expected response, counters and wires in agreement, each client closed at most once, and exactly once except one lost by the exit or refused by the kernel; or a panic, exactly when some octets read cause it, and then no drop; in static mode a handler error exactly when some octets read cause that |
| Routes.ReadableReadsAs | src/http/response.rs:97-120 | in any header order and before any continuation a reader finds status, reason, body and exactly the fields of the header map, each once |
| Routes.ReasonIsListed | src/http/response.rs:140-164 | each listed code has the reason phrase that HTTP gives it |
| Routes.OtherCodesAreUnknown | src/http/response.rs:161 | every other code reads as Unknown |
| Routes.NewResponseSaysReason | src/http/response.rs:14-27 | the status line of a new response is read as its code and the reason that belongs to it |
| Routes.BodySetsFields | src/http/response.rs:14-62 | a response with a body has the server, the connection and the length field, and no others |
| Routes.TypedBodySetsFields | src/http/response.rs:65-94 | setting a type before or after the body adds the type field and changes no other |
| Routes.NotFoundReads | src/http/response.rs:35-39 | the 404 response reads as 404 Not Found with its 13 octets of text |
| Routes.BadRequestReads | src/http/response.rs:49-53 | the 400 response reads as 400 Bad Request with its 15 octets of text |
| Routes.InternalErrorReads | src/http/response.rs:42-46 | the 500 response reads as 500 Internal Server Error with its 25 octets of text |
| Routes.KnownType | src/worker/reactor.rs:283-289 | each known extension has its content type |
| Routes.OtherTypesAreOctetStreams | src/worker/reactor.rs:290 | every other extension is an octet stream |
| Routes.StaticRoutes | src/worker/reactor.rs:268-296 | a missing file reads as 404; a mapped one as 200 with its content, its length and the type of its extension |
| Routes.DynamicRoutes | src/worker/reactor.rs:299-328 | which document each route sends and as what type; every other verb or path reads as 404 |
| Routes.SliceableIff | src/worker/reactor.rs:270 | slicing after the first byte is allowed if and only if that byte is a whole character in UTF-8, and drops just that character |
| Handlers.HandleStaticFile | src/worker/reactor.rs:268-296 | 404 for a missing file, an error exactly for one that cannot be mapped, otherwise its content with the type of its extension |
| Handlers.HandleDynamic | src/worker/reactor.rs:299-329 | the four routes, with the type that `text` sets last on the metrics route; an error exactly when the metrics encoder fails there |
| Handlers.FileResponseIsReadable | src/worker/reactor.rs:278-295 | a file response delimits itself, whatever the content and the extension |
| Handlers.DynamicResponseIsReadable | src/worker/reactor.rs:302-328 | so does every response of the dynamic handler |
| Handlers.StaticResponseIsReadable | src/worker/reactor.rs:268-296 | so does every response of the static handler |
| Handlers.ErrorResponsesAreReadable | src/http/response.rs:35-53 | so do the 400 and 404 responses |
| Handlers.BodyMakesReadable | src/http/response.rs:56-62 | setting a body makes any delimiter-free response self-delimiting |
| Handlers.TypedResponseIsReadable | src/http/response.rs:65-88 | so do the typed body setters |
| HttpResponses.HttpResponse.constructor | src/http/response.rs:14-27 | the status text of the code, the two default headers, no body and no length |
| HttpResponses.HttpResponse.Ok | src/http/response.rs:30-32 | a fresh 200 without a body |
| HttpResponses.HttpResponse.NotFound | src/http/response.rs:35-39 | a fresh 404 with its text and the length of that |
| HttpResponses.HttpResponse.InternalError | src/http/response.rs:42-46 | a fresh 500 with its text and the length of that |
| HttpResponses.HttpResponse.BadRequest | src/http/response.rs:49-53 | a fresh 400 with its text and the length of that |
| HttpResponses.HttpResponse.SetBody | src/http/response.rs:56-62 | body and length change together, all other fields stay |
| HttpResponses.HttpResponse.Json | src/http/response.rs:65-72 | body, type and length change together; when serialization fails nothing changes |
| HttpResponses.HttpResponse.Html | src/http/response.rs:75-80 | body, type and length change together |
| HttpResponses.HttpResponse.Text | src/http/response.rs:83-88 | body, type and length change together |
| HttpResponses.HttpResponse.WithHeader | src/http/response.rs:91-94 | one header is set or replaced and nothing else |
| HttpResponses.HttpResponse.ToBytes | src/http/response.rs:97-120 | the octets are the serialization of the object in some order that lists every header once |
| HttpResponses.SizeIgnoresHeaderOrder | src/http/response.rs:97-125 | two serializations of one response have the same length whatever the header orders, so `size` is well defined |
| HttpResponses.HeaderSizeIgnoresOrder | src/http/response.rs:107-111 | the header lines of two orders of the same keys have the same length |
| MessageReader.ReadLineOf | src/http/response.rs:101-114 | a line without CR and LF, ended by CRLF, is read back whole, whatever follows |
| MessageReader.ReadFieldOf | src/http/response.rs:108-111 | a header line with a token name and a trimmed value is read back as that name and value |
| MessageReader.FieldLinesReadBack | src/http/response.rs:107-114 | a header section up to its blank line is read back in order, and what follows is untouched |
| MessageReader.DeclaredLengthIs | src/http/response.rs:58-61 | the declared length is n exactly when there is a length field and all of them, in any spelling, say n |
| MessageReader.ConflictingLengths | src/http/response.rs:91-94 | two length fields that disagree, in any spelling, leave a message without a length |
| MessageReader.LengthOfDecimal | src/http/response.rs:58-61 | the printed length of a body is read as that length |
| MessageReader.RepeatedLength | src/http/response.rs:91-94 | a list of two lengths is read as one if they are equal and otherwise not at all |
| MessageReader.ReadFieldsAreClean | src/http/response.rs:107-114 | every field that was read has a token for a name and trimmed text for a value |
| MessageReader.ReadResponseIsClean | src/http/response.rs:97-120 | every response that was read has three digits, a space and text in its status line, and clean fields |
| MessageReader.ReadFieldsSplits | src/http/response.rs:107-114 | a section of n fields that was read takes exactly n + 1 lines |
| MessageReader.ReadResponseSplits | src/http/response.rs:97-120 | whatever was read as a response begins with a status line of a fixed length, followed by one line for each field, a blank line and the body |
| MessageReader.MessageDoesNotFit | src/worker/reactor.rs:256-257 | a response cannot be read from within a proper part of its own octets: the reader has to read on into what follows |
| Octets.ParseDecimalInvertsDecimal | src/http/response.rs:58-61 | reading the printed length of a body gives that length |
| ResponseStream.CodeHasThreeDigits | src/http/response.rs:101-104 | a status code printed before a space is read back only if it has three digits |
| ResponseStream.ReadBackIsClean | src/http/response.rs:97-120 | a response that is read back as itself has no stray delimiters |
| ResponseStream.ReadsBackIff | src/http/response.rs:97-120 | followed by anything, a response is read back with status, headers and body, and the rest left intact, if and only if it is free of stray delimiters and framed |
| ResponseStream.FramedDecidesLength | src/http/response.rs:107-117 | the reader finds the true body length, in any header order, if and only if the response is framed |
| ResponseStream.ReadResponseOf | src/http/response.rs:97-120 | a reader gets through status line and headers of every delimiter-free response; the fields decide how much of the rest is its body |
| ResponseStream.StreamReadsBack | src/worker/reactor.rs:256-257 | concatenated framed responses are split into exactly the responses sent |
| ResponseStream.LateReaderFails | src/worker/reactor.rs:256-257 | a reader that starts too late in a stream of cut responses cannot find all of them |
| ResponseStream.CutReadsBackIffWhole | src/worker/reactor.rs:256-257 | a stream of framed responses, each cut somewhere, is read back if and only if none was cut |
| ResponseStream.HeadersReadBack | src/http/response.rs:107-111 | a reader that forgets field order recovers the header map itself |
| ResponseStream.StreamIsUnambiguous | src/worker/reactor.rs:256-257 | equal octet streams carry the same responses, whatever header orders each was written in |
| ResponseStream.BuildersKeepSize | src/http/response.rs:56-94 | setting a body makes the length field true; setting any header but a framing one keeps it true |
| ResponseStream.SizedIsFramed | src/http/response.rs:56-62 | a true length field and no rival framing field make a response framed |
| ResponseStream.NewResponseIsPlain | src/http/response.rs:14-27 | a new response with any three-digit code is free of delimiters and framing fields |
| ResponseStream.StatusTextIsValueText | src/http/response.rs:140-164 | no status text contains a delimiter |
| ResponseStream.WithHeaderKeepsFramingIff | src/http/response.rs:91-94 | setting a header of a framed response keeps it framed if and only if the status never has a body, or the header is no transfer coding and, if a length in any spelling, says the body length |
| ResponseStream.WithHeaderReadsBackIff | src/http/response.rs:91-94 | setting a header of a response that is read back keeps it so if and only if the name is a token, the value trimmed text, and framing is kept |
| ResponseStream.RespelledLengthIsRejected | src/http/response.rs:91-94 | a 404 with a second, lower-case length of 0 is rejected in every header order, whatever follows |
| ResponseStream.FreshOkIsNotFramed | src/http/response.rs:30-32 | a fresh `ok()` is never read back, whatever follows it |
| UrlDecoding.HexValueIsPlace | src/http/parser.rs:136 | a character is a digit of value v exactly if it stands at place v of the lower-case or the upper-case alphabet |
| UrlDecoding.U8FromHex | src/http/parser.rs:132-136 | two hexadecimal digits, or a plus sign and one, give an octet of which they are the halves; anything else fails |
| UrlDecoding.Decode | src/http/parser.rs:125-152 | the loop fails exactly where the specification does, returns its text, and borrows exactly when decoding changed nothing |
| UrlDecoding.DecodingIsCompositional | src/http/parser.rs:125-151 | after a text that decodes, the rest decodes or fails on its own, and the results concatenate |
| UrlDecoding.EscapesShrinkByTwo | src/http/parser.rs:129-145 | a decoded text is shorter by two characters for each escape consumed |
| UrlDecoding.DecodingInvertsEncoding | src/http/parser.rs:125-151 | every percent-encoding of a text, with either case of digits and with `+` or an escape for a space, decodes to that text |
| UrlDecoding.PercentEncodeEncodes | src/http/parser.rs:136-137 | the standard encoder, on code points 0 to 255, with lower-case or upper-case digits, is one of those encodings |
| UrlDecoding.Utf8ComesBackIffAscii | src/http/parser.rs:136-137 | a text whose UTF-8 octets were escaped comes back if and only if it is ASCII |
| UrlDecoding.DecodesIff | src/http/parser.rs:129-145 | a text decodes if and only if each percent sign in it is followed by a hexadecimal digit or a plus sign, and a hexadecimal digit |
| UrlDecoding.AcceptsIllFormedIffSigned | src/http/parser.rs:136 | every text well formed by RFC 3986 decodes, and a text that decodes is well formed if and only if no percent sign in it is followed by a plus sign |
| UrlDecoding.SignedEscapeIsAccepted | src/http/parser.rs:136 | `%+7` decodes to the octet 7 although it is not well formed |
| HttpRequests.HttpRequest.QueryParams | src/http/parser.rs:91-109 | the loop gives the last-wins map of the pieces, with failed decodes as empty strings and pieces without `=` dropped |
| HttpRequests.SplitTakesApart | src/http/parser.rs:96 | the pieces of any query, joined by the separator, are the query, and none contains it |
| HttpRequests.BarePieceIsDropped | src/http/parser.rs:97 | a piece without `=` adds nothing |
| HttpRequests.BrokenSideIsEmpty | src/http/parser.rs:97-103 | a pair adds its key and value, each decoded on its own, and empty if it does not decode |
| HttpRequests.BrokenEscapeIsEmpty | src/http/parser.rs:91-109 | `?q=%` says that `q` is empty |
| HttpRequests.LastWinsMeans | src/http/parser.rs:100-103 | the value of a repeated key is that of its last pair |
| HttpRequests.PlainPathHasNoParams | src/http/parser.rs:94-118 | a path without `?` is its own clean path and has no parameters |
| HttpRequests.SplitInvertsJoin | src/http/parser.rs:96 | encoded pairs joined by `&` are split into themselves |
| HttpRequests.PairOfEncoding | src/http/parser.rs:97-103 | an encoded pair is taken apart at its first `=` and decoded to the original pair |
| HttpRequests.QueryRoundTrip | src/http/parser.rs:91-118 | appending any encoding of any pairs to a `?`-free path: `clean_path` gives the path back and `query_params` the last-wins map of the pairs |
| HttpRequests.Latin1QueryRoundTrip | src/http/parser.rs:91-118 | with the standard encoder this holds for all pairs over code points 0 to 255 |
| HttpRequests.CollectHeaders | src/http/parser.rs:38-45 | the header loop builds the map of lowercased names in which the last line wins and nameless lines are skipped |
| HttpRequests.LowerIgnoresCaseOnly | src/http/parser.rs:41 | two names are the same in lower case exactly if they are the same letter by letter but for ASCII case |
| HttpRequests.GetHeaderFindsLast | src/http/parser.rs:38-67 | a header is found under any capitalization of its ASCII letters if and only if some line bears its name, with the value of the last such line |
| SendFile.Socket.SendFile | src/file/sendfile.rs:8-33 | a prefix of the octets at the offset is delivered, at most the count asked for, or nothing; offset, count and answer are recorded |
| SendFile.SendEntireFile | src/file/sendfile.rs:48-83 | each call starts where the last got to and asks for the rest of the file, up to 2^30 octets; what arrives is the prefix of the file of the length returned; it falls short only after a call that sent nothing or failed; an error only if the first call failed |
| SendFile.TotalBounds | src/file/sendfile.rs:57-69 | each call that keeps the loop going accounts for between one octet and 2^30 |
| SendFile.CallsForCompleteTransfer | src/file/sendfile.rs:57-79 | a complete transfer takes between ceil(size / 2^30) and size calls |
| BenchStats.Stats.constructor | bench/run_bench.rs:24-30 | everything at zero |
| BenchStats.Stats.RecordRequest | bench/run_bench.rs:32-36 | one record with nothing in between, counters modulo 2^64 |
| BenchStats.Stats.PrintResults | bench/run_bench.rs:38-64 | the stored latencies are sorted in place, as a permutation; each reported value is a percentile of them, and p50 <= p95 <= p99; nothing is reported exactly when none are stored |
| BenchStats.RankIndex | bench/run_bench.rs:55-57 | the index is in range and is the k-percent point rounded down |
| BenchStats.PercentileOfRank | bench/run_bench.rs:54-57 | at that index of the sorted list, at least k% of the samples do not exceed the value and at most k% lie strictly below it |
| BenchStats.BelowIndex | bench/run_bench.rs:54-57 | at most i samples are strictly below entry i of a sorted list |
| BenchStats.AtMostIndex | bench/run_bench.rs:54-57 | at least i + 1 samples do not exceed it |
| BenchStats.RankIndexMonotone | bench/run_bench.rs:55-57 | a higher percentile never has a lower index |
| BenchStats.CountIgnoresOrder | bench/run_bench.rs:42 | sorting does not change how many samples lie below a value |
| BenchStats.SoloStepsAreRecordRequest | bench/run_bench.rs:32-36 | undisturbed, the three steps of one thread are one `record_request` |
| BenchStats.CounterAheadByOpenRecords | bench/run_bench.rs:32-36 | in every reachable state the request counter exceeds the stored latencies by the half-written records, modulo 2^64 |
| BenchStats.FinishedRecorderAddsUp | bench/run_bench.rs:96-111 | when all threads are done, under any interleaving, the counters are the number of latencies and the sum of all recorded octets, modulo 2^64, and the stored latencies are those recorded |
| BenchStats.RequestReadsBack | bench/run_bench.rs:139-149 | the request is read back with its line, fields and payload, for every payload size, whatever follows |
| BenchStats.GetReadsBack | bench/run_bench.rs:140-141 | without a payload it is read as a GET for the health document, with a host and a connection field |
| BenchStats.PostReadsBack | bench/run_bench.rs:143-148 | with one it is read as a POST that declares its length, with as many letters x |
| BenchStats.RequestStreamReadsBack | bench/run_bench.rs:123-127 | k requests back to back are read as exactly k requests |

## Left out

- StealPool: a probe, a push and a flag reading are each one atomic step on a bounded FIFO; crossbeam's `ArrayQueue` is not part of this model, nor are memory orderings. Worker threads are a step system and not a method with a loop, because a Dafny method runs alone. Pushes and the clearing of the flag are steps of the environment, since outside the tests no code of the repository makes them.
- EventLoop.Reactor.EventLoop: `rounds` stands for the number of times the flag is seen up; an endless run is covered through its finite beginnings. One burst of `accept` is finite, because the kernel has a finite number of pending connections when a wait returns. The time a wait may take is not modelled.
- EventLoop.Reactor.EventLoop, in builds that unwind: a panic is modelled as in the release profile, where it ends the process; unwinding, which would run the drop, is not modelled.
- EventLoop.Reactor.Expected: the metrics document is a function of the two counters; in the source it also shows the duration histogram, which is not modelled.
- EventLoop.Reactor.HandleRequest: the metrics counters are natural numbers and do not wrap at 2^64.
- BenchStats.Stats.PrintResults: an insertion sort on values stands for `Vec::sort`; rates and times are floating point and not modelled, nor is the CSV export.
- SendFile.Socket.SendFile: only calls with an offset, the only ones `send_entire_file` makes; the reactor itself does not call it.
- HttpRequests.GetHeaderFindsLast: names are lowercased on ASCII letters only.
- HttpRequests.CollectHeaders: starts from the names and values that `httparse` returns; `httparse`, `serde_json` and `prometheus` are parameters and not part of this model, and neither is the request body.
- ResponseStream.ReadsBackIffFramed: the stream is read as answers to requests other than HEAD, and a length that ends with the connection counts as not framed. The reader decodes no transfer codings: a message that names one does not delimit itself for it. A length field that holds no number at all is rejected, even beside one that does.
- `is_keep_alive`, `content_length` and `has_body` (src/http/parser.rs:70-88): they compare the Connection header with `keep-alive`, parse the Content-Length header, and ask whether there is a length or a body. No handler calls them and no theorem here depends on them.
- Liveness and completeness of connections: a client is read once, up to 8192 octets, for each edge-triggered event, so no claim is made that every request is answered whole.
- `PathBuf` joining, existence checks and `mmap` are one function from paths to outcomes.
- src/net/io_uring.rs, src/net/dpdk_adapter.rs, src/file/mmap.rs, src/sys, `splice` and `vmsplice`, socket creation, core pinning, argument parsing and tracing: system plumbing without a deep property.
- Response text is modelled as its octets, request text as its characters.
