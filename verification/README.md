# Verification of the RPC framework's core

A Dafny model of the state machines and codecs of a header-only C++20 RPC framework, and proofs of what they
keep over every input, every run and every interleaving. `dafny verify dfyconfig.toml` checks all of it.

| files | what they model |
|---|---|
| `WheelModel`, `WheelRuns`, `TimingWheel` | the hashed timing wheel (`io/timer.hpp`) against a naive list of timers |
| `Bytes`, `Serializer`, `CodeGenerator` | the binary serializer (`rpc/serializer.hpp`) and the struct codecs the IDL compiler emits (`idl/code_generator.hpp`) |
| `Protocol`, `ServiceRegistry`, `RpcServer` | the frame format, the handler table and the request path (`rpc/protocol.hpp`, `rpc/service_registry.hpp`, `rpc/rpc_server.hpp`) |
| `ConnectionPool` | the connection pool as a step system over any number of threads (`net/connection_pool.hpp`) |
| `Scheduler`, `EventLoopPool`, `Balance` | the work-stealing scheduler and cross-thread dispatch (`coroutine/scheduler.hpp`, `io/event_loop_pool.hpp`) |
| `Buffer` | the growable, compacting byte buffer (`net/buffer.hpp`) |
| `LoadBalancer` | weighted round robin (`rpc/loadbalance/load_balancer.hpp`) |
| `Sequences`, `Modular` | filtering, counting and summing over sequences; quotients and remainders |

Objects whose methods update fields are classes; their methods are proved against functions on values, and the
whole-run theorems are about those functions. Protocols that interleave are step systems: a state, actions with
guards, and runs that are lists of enabled actions. A step is one lock-protected piece of code or one atomic update.

## What the proofs found

- **Timers.** A timer with delay >= 1 fires exactly once, on the ceil(delay/tick)-th tick, in every run. With
  delay 0 the expire tick lies one behind the clock: the timer is a whole turn of the wheel late, and if it was
  added at tick 0 it waits for tick 2^64 - 1 (`WheelRuns.AddFiresOnNthTick`). The header comment speaks of an
  overflow list for distant timers; the code has none and relies on the expiry test in the slot.
- **Pool capacity.** `max_connections` bounds every run exactly when one thread uses the pool. With T threads the
  exact bound is max_connections + T - 1: it is never exceeded (`ConnectionPool.CapacityBound`) and some
  interleaving reaches it, for every T (`ConnectionPool.BoundIsReached`).
- **Dispatch.** A task whose MSG_RING post fails can run twice, because the worker may take it out of the pending
  map before the failed post erases it. It runs twice if and only if the erase at `io/event_loop_pool.hpp:149`
  finds nothing, and exactly once otherwise (`EventLoopPool.SettledTaskRanTwiceIff`); from every reachable state
  with a post outstanding both can still happen (`EventLoopPool.FailedSubmitGoesEitherWay`).
- **Short reads and writes.** The connection loop calls the socket once for each header, body and response and does
  not ask again. It takes a concatenation of frames apart correctly and sends all responses if and only if none of
  these calls is short (`RpcServer.FramesAnsweredIff`).
- **Counter wrap.** Round robin is fair over every window in which its counter does not wrap. Over windows across
  the wrap it is fair if and only if the table goes on in step there; for plain round robin over w places, if and only
  if w divides the counter's range (`LoadBalancer.EveryTurnIsFairIff`, `LoadBalancer.RoundRobinIsFairIff`).
- **Retreat.** A retreat gives back what was read exactly if the read position in the block is still that far in, as
  it is whenever no compaction intervened (`Buffer.RetreatRestoresIff`, `Buffer.RetreatUndoesRun`).
- **Length fields.** Container and frame lengths are cast to 32 bits. The round trips hold if and only if every
  size fits (`Serializer.RoundTripIff`, `CodeGenerator.GeneratedCodeRoundTrips`, `Protocol.TotalSizeIff`).
- **Booleans.** Decoding accepts any non-zero byte as true, so re-encoding gives back the same bytes exactly for
  types without a bool (`Serializer.CanonicalIff`).
- **Heartbeats.** The metadata of a heartbeat is not read, so its reply carries id 0 whatever the sender's id was
  (`RpcServer.HeartbeatAnswered`).
- **Empty handlers.** A method is reported by `has_method` and yet answered with ServiceNotFound if and only if it
  was last registered with an empty handler (`RpcServer.EmptyHandlerIff`).
- The comment in `rpc/protocol.hpp` gives the magic as "0xRPC1"; the code uses 0x5250, and so does the model.

## Model

| member | source | states |
|---|---|---|
| WheelModel.DueIsFirst | io/timer.hpp:392-400 | the due tick is the least T >= max(expire tick, now) congruent to the expire tick modulo the number of slots; a late entry waits fewer than `slots` ticks |
| WheelModel.DueNow | io/timer.hpp:428-433 | an entry in the current slot with expire_tick <= current_tick_ is exactly one due now, and a tick that does not fire an entry leaves its due tick unchanged |
| WheelModel.IndexAgrees | io/timer.hpp:398-416 | `timer_slot_` holds an id exactly when the slot it names holds one entry with that id and no other slot does |
| WheelModel.InsertRepresents | io/timer.hpp:397-400 | inserting a fresh id adds exactly that entry, at the end, and keeps slots and index in agreement |
| WheelModel.CancelRepresents | io/timer.hpp:406-418 | cancel returns true iff the timer is live and removes only it |
| WheelModel.TickRepresents | io/timer.hpp:424-440 | a tick takes out exactly the entries that fire, in insertion order, and keeps slots and index in agreement |
| WheelModel.TickRefines | io/timer.hpp:424-446 | a tick of the wheel is a tick of the naive timer: it fires the timers that are due and leaves all other due ticks as they were |
| WheelModel.AdvanceCountsDue | io/timer.hpp:451-457 | `advance(n)` returns exactly the number of live timers due in the next n ticks |
| WheelModel.AdvanceLeavesTheRest | io/timer.hpp:451-457 | `advance(n)` moves the clock by n and leaves exactly the timers not due in the next n ticks, in slots and index alike |
| WheelRuns.StepSimulates | io/timer.hpp:391-446 | every step (any of the three of add_timer, cancel, tick) is the same step of the naive timer with the same output |
| WheelRuns.WheelRefinesNaive | io/timer.hpp:391-446 | on every run the ids, the cancel results and the callbacks fired at each tick, in order, are those of the naive timer |
| WheelRuns.ReachableIsRepresented | io/timer.hpp:391-446 | in every reachable state slots and index describe one and the same list of timers |
| WheelRuns.AdvanceIsTicks | io/timer.hpp:451-457 | `advance(n)` leaves the wheel that n tick events leave, and its total is the number of callbacks they fire |
| WheelRuns.LiveFiresOnce | io/timer.hpp:406-446 | a live timer fires exactly once, at its due tick, iff that tick comes before any attempt to cancel it |
| WheelRuns.SplitAddFiresExactlyOnce | io/timer.hpp:392-400 | with any events between taking the id, the unlocked clock read and the insertion, the timer fires exactly once, at the first congruent tick >= max(expire tick, tick at insertion), unless cancelled first, and never before insertion |
| WheelRuns.AddFiresOnNthTick | io/timer.hpp:391-401 | an undisturbed add with delay >= 1 fires exactly once on the ceil(delay/tick)-th tick unless cancelled first; with delay 0 it is a turn of the wheel late |
| TimingWheel.TimingWheel.constructor | io/timer.hpp:377-383 | an empty wheel at tick 0 with next id 1 |
| TimingWheel.TimingWheel.Reserve | io/timer.hpp:392-395 | the id and expire tick fixed before the lock is taken |
| TimingWheel.TimingWheel.Insert | io/timer.hpp:397-400 | the entry goes to the slot its expire tick hashes to, and the index records that slot |
| TimingWheel.TimingWheel.AddTimer | io/timer.hpp:391-401 | adds one entry under a fresh id, due on the ceil(delay/tick)-th tick when delay >= 1 |
| TimingWheel.TimingWheel.CancelTimer | io/timer.hpp:406-418 | true iff the id was live; the remaining timers are the others, in order |
| TimingWheel.TimingWheel.CollectExpired | io/timer.hpp:429-434 | the loop collects the callbacks of the expired entries in slot order and erases exactly their ids |
| TimingWheel.TimingWheel.Tick | io/timer.hpp:424-446 | runs the callbacks of exactly the timers that fire now, in the order they were added; the others stay and the clock moves by one |
| TimingWheel.TimingWheel.Advance | io/timer.hpp:451-457 | the total is the number of live timers due in those ticks, the clock stands that many ticks later, and the timers due later are the ones left |
| Bytes.FromToBytes | rpc/serializer.hpp:60-75 | reading back the low n bytes of an integer gives it modulo 256^n |
| Bytes.SignedRoundTrip | rpc/serializer.hpp:153-159 | an in-range signed integer survives the modular shifts and casts |
| Bytes.ByteOfShift | rpc/serializer.hpp:71-75 | byte i is (value >> 8i) & 0xFF, also for negative values |
| Bytes.FromBytesSnoc | rpc/serializer.hpp:168-174 | or-ing in byte i at its place adds it times 256^i |
| Serializer.IntRanges | rpc/serializer.hpp:43-79 | the value ranges of the eight integer types |
| Serializer.IntOnTheWire | rpc/serializer.hpp:43-79 | an integer goes out in 1, 2, 4 or 8 bytes, byte k being (value >> 8k) & 0xFF |
| Serializer.OthersAsInts | rpc/serializer.hpp:39-91 | a bool goes out as the byte 1 or 0, a float or double as the unsigned integer with its bits |
| Serializer.StringOnTheWire | rpc/serializer.hpp:93-96 | a string goes out as its 32-bit length and then its bytes |
| Serializer.VectorOnTheWire | rpc/serializer.hpp:98-104 | a vector goes out as its 32-bit count and then the encodings of its elements, each where those before it end |
| Serializer.ZeroMeansZero | rpc/serializer.hpp:122-200 | of all inputs as wide as a scalar type exactly the all-zero one decodes to its zero |
| Serializer.DecodeSound | rpc/serializer.hpp:122-227 | on arbitrary bytes a successful decode reports no more bytes than it was given; its value has the type asked for, fits its length fields and re-encodes to as many bytes |
| Serializer.DecodeLocal | rpc/serializer.hpp:122-227 | decoding depends only on the bytes it reports |
| Serializer.RoundTripIff | rpc/serializer.hpp:39-227 | for every value of every type, nested to any depth, decoding its encoding followed by any bytes returns the value and the encoding's length iff every container size fits 32 bits |
| Serializer.StrictPrefixFails | rpc/serializer.hpp:122-227 | every strict prefix of an encoding fails to decode |
| Serializer.PrefixFree | rpc/serializer.hpp:39-104 | no encoding of a type is a prefix of the encoding of another value |
| Serializer.EncodeDecode | rpc/serializer.hpp:128-227 | bytes accepted for a bool-free type are the encoding of the value decoded |
| Serializer.CanonicalIff | rpc/serializer.hpp:122-126 | re-encoding gives back the same bytes for all inputs iff the type contains no bool |
| Serializer.ByteVector.EncodeInt | rpc/serializer.hpp:51-79 | appends the low bytes of the value, least significant first |
| Serializer.ByteVector.EncodeValue | rpc/serializer.hpp:39-104 | appends the encoding of a value of any type |
| Serializer.ByteVector.EncodeAll | rpc/serializer.hpp:101-103 | the element loop appends the encodings of all elements in order |
| Serializer.DecodeIntBytes | rpc/serializer.hpp:140-182 | the shift loop reads exactly `width` bytes, or fails on fewer |
| Serializer.DecodeFrom | rpc/serializer.hpp:122-227 | the decoder computes the specified value and byte count, or the specified failure |
| Serializer.DecodeVector | rpc/serializer.hpp:214-226 | the element loop, with its early exit, decodes the counted elements one after the other |
| Serializer.SerializeThenDeserialize | rpc/serializer.hpp:233-249 | `deserialize` of `serialize` succeeds and returns the value |
| CodeGenerator.GenerateSerializationCode | idl/code_generator.hpp:125-154 | statement i of serialize encodes field i, and statements 3i to 3i + 2 of deserialize decode, check and advance over field i |
| CodeGenerator.EmittedCodeMeans | idl/code_generator.hpp:133-149 | running the emitted statements encodes and decodes the members in declaration order, stopping at the first failure |
| CodeGenerator.FieldsInOrder | idl/code_generator.hpp:133-135 | in the output field k lies between the fields declared before it and those declared after it |
| CodeGenerator.GeneratedCodeRoundTrips | idl/code_generator.hpp:125-154 | for every struct with distinct member names, the generated deserialize run on the generated serialize's output returns true and recovers every member iff every container size fits 32 bits |
| CodeGenerator.TruncatedStructFails | idl/code_generator.hpp:143-150 | running the generated deserialize on any strict prefix of what the generated serialize returned returns false |
| Protocol.RequestIsSendable | rpc/protocol.hpp:174-192 | a created request, within its field widths, satisfies the conditions of the frame round trip |
| Protocol.ResponseIsSendable | rpc/protocol.hpp:194-205 | the same for a created response |
| Protocol.ErrorIsSendable | rpc/protocol.hpp:207-218 | the same for a created error response |
| Protocol.HeaderRoundTrip | rpc/protocol.hpp:61-86 | each header field lies at its own offset, and parsing gives back the header, whatever follows it |
| Protocol.RequestLayout | rpc/protocol.hpp:220-258 | every byte of a request frame, from the arguments of create_request: magic, version, type, both lengths, metadata fields, service, method, payload |
| Protocol.ResponseLayout | rpc/protocol.hpp:220-280 | every byte of a response or error frame, from the fields of the message |
| Protocol.RequestArguments | rpc/protocol.hpp:174-192 | deserializing the frame of create_request gives back each argument in its own field |
| Protocol.ResponseArguments | rpc/protocol.hpp:194-218 | the same for create_response and create_error |
| Protocol.RejectedIff | rpc/protocol.hpp:282-297 | deserialize refuses a byte string iff it is shorter than a header, lacks the magic number, or is shorter than its header says |
| Protocol.TotalSizeIff | rpc/protocol.hpp:156-158 | the size computed from the header is the frame's length iff metadata and payload sizes fit 32 bits |
| Protocol.FrameRoundTrip | rpc/protocol.hpp:220-336 | deserializing a request, response or error frame followed by any bytes into a fresh message recovers every field, and total_size() is the frame's length, whatever the padding bytes were |
| Protocol.TruncatedFrameRejected | rpc/protocol.hpp:282-297 | a frame cut short anywhere is refused |
| Protocol.SerializeMessage | rpc/protocol.hpp:220-280 | the filled buffer is the specified frame |
| Protocol.AppendMeta | rpc/protocol.hpp:243-272 | the metadata is written through the advancing pointer, directly after what precedes it |
| Protocol.DeserializeMessage | rpc/protocol.hpp:282-336 | the parser's result on every byte string, including the refusals |
| ServiceRegistry.FindIsLastBinding | rpc/service_registry.hpp:54-137 | over any registration history, find_method and has_method answer by the last registration that concerns the pair; registering or unregistering the service forgets its methods |
| ServiceRegistry.InfoIsLastDescription | rpc/service_registry.hpp:54-87 | a service carries its own name, and a method's description is the last non-empty one given since the service was last reset |
| ServiceRegistry.ServiceIsLastMentioned | rpc/service_registry.hpp:54-122 | has_service holds iff some registration of the service or a method of it comes after every removal |
| ServiceRegistry.ServiceRegistry.Register | rpc/service_registry.hpp:54-58 | replaces the service by one without methods |
| ServiceRegistry.ServiceRegistry.RegisterHandler | rpc/service_registry.hpp:63-81 | creates the service if needed and binds the method, keeping all other bindings |
| ServiceRegistry.ServiceRegistry.Unregister | rpc/service_registry.hpp:86-89 | removes the service and no other |
| RpcServer.EndToEnd | rpc/rpc_server.hpp:187-236 | decoding the reply to an encoded request yields a response with the same id, carrying the registered handler's result, or ServiceNotFound iff no handler is registered for the pair, or Unknown iff it throws; an error carries its text |
| RpcServer.RequestAnswered | rpc/rpc_server.hpp:187-236 | the same from the arguments of create_request: for every history, id, service, method, payload, timeout and clock the decoded reply carries that id and is decided by the handler last registered for that service and method |
| RpcServer.HeartbeatAnswered | rpc/rpc_server.hpp:228-236 | a heartbeat is counted and answered with an empty OK response with id 0; frames of the remaining kinds are counted and get no reply |
| RpcServer.CountersAreTallies | rpc/rpc_server.hpp:187-227 | over any run of messages and registrations total_requests counts the messages that parsed, total_errors those that did not plus the handlers that threw |
| RpcServer.EmptyHandlerIff | rpc/rpc_server.hpp:198-210 | has_method holds and the decoded reply is ServiceNotFound iff the pair was last registered with an empty handler |
| RpcServer.LoopSplitsFrames | rpc/rpc_server.hpp:131-182 | with full reads and writes the loop splits any concatenation of frames within max_request_size into exactly those frames, whatever the buffer held, answers them in order and counts them |
| RpcServer.FramesAnsweredIff | rpc/rpc_server.hpp:135-180 | for any sizes of the socket's reads and writes: the frames are handed on unchanged, from their own bytes, and all responses sent, iff each read delivers the count asked for and each response is taken in one piece |
| RpcServer.ReadFrameMeans | rpc/rpc_server.hpp:137-169 | every byte of the frame one turn hands on, for any sizes of the two reads: the bytes delivered, over the old ones of the buffer; and when the connection ends instead, with an error counted or without |
| RpcServer.TurnUnfolds | rpc/rpc_server.hpp:171-180 | what one turn sends of the response, and whether the loop goes on, for any size of the write |
| RpcServer.TurnEnds | rpc/rpc_server.hpp:137-168 | a turn that ends the connection counts one error for a bad header and none for a closed connection |
| RpcServer.ConversationAnswered | rpc/rpc_server.hpp:131-236 | the bytes of any list of requests are answered by the bytes of exactly the expected replies, in order, iff no read and no write is short |
| RpcServer.RpcServer.HandleMessage | rpc/rpc_server.hpp:187-236 | the reply and both counters on every byte string that is not read past its end |
| RpcServer.ReceiveFrame | rpc/rpc_server.hpp:137-169 | the two reads of whatever size, the two checks and the growth of the reused buffer |
| RpcServer.RpcServer.HandleFrame | rpc/rpc_server.hpp:135-180 | one turn of the loop: the frame read, the counters, what the socket took of the response and whether the loop goes on |
| RpcServer.RpcServer.HandleConnection | rpc/rpc_server.hpp:131-182 | everything written to the connection, the input left over and both counters, for any input stream and any sizes of its reads and writes |
| ConnectionPool.StepKeepsInv | net/connection_pool.hpp:59-118 | every atomic step of acquire and release keeps lock ownership, uniqueness of connections, the counter equations, the capacity bound and the idle limit |
| ConnectionPool.CapacityBound | net/connection_pool.hpp:77-86 | under every interleaving of T threads total connections plus threads past the check but not yet counted never exceeds max_connections + T - 1; one thread never exceeds max_connections |
| ConnectionPool.BoundIsReached | net/connection_pool.hpp:77-86 | for every T and every limit >= 1 some interleaving reaches max_connections + T - 1 |
| ConnectionPool.MaxConnectionsHoldsIff | net/connection_pool.hpp:77-86 | max_connections limits every run iff one thread uses the pool (or the limit is 0) |
| ConnectionPool.NoConnectionShared | net/connection_pool.hpp:59-118 | no connection is ever in two places (idle, held, in a thread's hands), the idle list stays within max_idle, and active + idle differs from total only by threads in the middle of an update |
| ConnectionPool.CountersWhenUnlocked | net/connection_pool.hpp:81-84 | while the lock is free, active + idle = total + threads between the two increments |
| ConnectionPool.ConnectionPool.constructor | net/connection_pool.hpp:42-49 | an empty pool with both counters zero |
| ConnectionPool.ConnectionPool.Drain | net/connection_pool.hpp:63-74 | the loop returns the last idle connection still connected, drops the dead ones behind it and takes exactly those off the total |
| ConnectionPool.ConnectionPool.Acquire | net/connection_pool.hpp:59-97 | undisturbed, it is a run of the step system; it takes the last live idle connection, else creates one and counts it if the total without the dead ones leaves room, fails if creation fails, and waits otherwise |
| ConnectionPool.ConnectionPool.CreateOrWait | net/connection_pool.hpp:77-97 | below the limit exactly one connection is created and counted, or none if that fails; at the limit nothing changes |
| ConnectionPool.ConnectionPool.ReleaseConn | net/connection_pool.hpp:103-118 | undisturbed, it is a run of the step system; the connection goes back to the idle list iff it is connected and there is room, else it is taken off the total |
| Balance.GreedyBound | coroutine/scheduler.hpp:122-132 | from any loads, k placements at a least loaded place leave the largest load at most max(what it was, ceil(final total / places)) |
| Balance.GreedyKeepsWithin | coroutine/scheduler.hpp:122-132 | loads within d >= 1 of each other stay within d |
| Scheduler.StepConserves | coroutine/scheduler.hpp:41-64 | push, local pop, steal and resume each keep the count of every handle |
| Scheduler.NoTaskLostOrDuplicated | coroutine/scheduler.hpp:41-64 | under every interleaving each handle is pending, in a worker's hand or resumed exactly as often as it was scheduled |
| Scheduler.PassTakesOne | coroutine/scheduler.hpp:209-223 | a pass takes exactly one occurrence of one task out of the queues |
| Scheduler.PassIsARun | coroutine/scheduler.hpp:209-223 | an undisturbed pass is two steps of the concurrent system |
| Scheduler.TakenByAge | coroutine/scheduler.hpp:41-64 | over every run the tasks taken and resumed are those of a specification without queues: a local pop takes the task scheduled last of those waiting in that queue, a steal the one scheduled first |
| Scheduler.LastInFirstOut | coroutine/scheduler.hpp:46-54 | tasks scheduled on the queue of a worker nobody steals from are resumed in reverse order, whatever the queue held |
| Scheduler.Scheduler.ShortestQueue | coroutine/scheduler.hpp:123-131 | the scan finds the first shortest queue |
| Scheduler.Scheduler.Schedule | coroutine/scheduler.hpp:118-135 | the task is appended to the named queue, or to the first shortest one when the id is out of range |
| Scheduler.Scheduler.ScheduleBatch | coroutine/scheduler.hpp:140-144 | with no pops meanwhile, all tasks are queued in the order of the batch, the longest queue is at most max(initial longest, ceil(total / threads)), and queues within d stay within d |
| Scheduler.Scheduler.CountPending | coroutine/scheduler.hpp:163-169 | the sum of all queue lengths |
| Scheduler.Scheduler.WorkerPass | coroutine/scheduler.hpp:205-228 | with no other actor a pass resumes exactly one task iff any queue holds one: the newest of its own queue, else the oldest of the first other queue that has one |
| Scheduler.Scheduler.Drain | coroutine/scheduler.hpp:205-228 | any sequence of passes resumes min(passes, pending) tasks, losing and repeating none, so pending_count measures the remaining work |
| EventLoopPool.DispatchedTaskIsSafe | io/event_loop_pool.hpp:131-167 | under every interleaving, at every moment, the copies of a dispatched task still on their way and the times it has run add up to one, or to two iff its post failed and the erase found nothing |
| EventLoopPool.SettledTaskRanTwiceIff | io/event_loop_pool.hpp:146-151 | once nothing of it is on its way, a dispatched task has run twice iff its post failed and the erase found nothing, and otherwise exactly once |
| EventLoopPool.MissingMeansRan | io/event_loop_pool.hpp:239-244 | while its submit is outstanding, a task is missing from the pending map iff the worker has run it |
| EventLoopPool.QueueRunsInPostOrder | io/event_loop_pool.hpp:157-161 | queue-posted tasks run in post order, each once |
| EventLoopPool.FailedSubmitGoesEitherWay | io/event_loop_pool.hpp:139-151 | from every reachable state with a submit outstanding it can fail and the task settle after two runs, or after one if the worker has not reached the map yet |
| EventLoopPool.WorkerDrains | io/event_loop_pool.hpp:247-258 | from every state the worker alone can run all that is batched and queued, in order |
| EventLoopPool.EventLoopThread.PostViaMsgRing | io/event_loop_pool.hpp:131-152 | undisturbed, it is the run take id, store, submit; success leaves the task under a fresh id and failure leaves no trace |
| EventLoopPool.EventLoopThread.Post | io/event_loop_pool.hpp:157-161 | appends to the queue, which is a post step of the step system |
| EventLoopPool.EventLoopThread.Dispatch | io/event_loop_pool.hpp:404-410 | undisturbed, it is a run of the step system that leaves the task in exactly one place: the map, or the queue if the submit failed |
| EventLoopPool.EventLoopThread.RunPendingTasks | io/event_loop_pool.hpp:236-244 | every pending entry is visited once and erased, and run if it has a callable |
| EventLoopPool.EventLoopThread.ProcessTasks | io/event_loop_pool.hpp:234-259 | the pending tasks, each once, then the queued ones in order; both containers end empty; it is the run that visits the map in that order and then drains the queue |
| EventLoopPool.EventLoopPool.SelectLeastConnections | io/event_loop_pool.hpp:359-370 | the first worker with the fewest connections |
| EventLoopPool.EventLoopPool.DispatchRoundRobin | io/event_loop_pool.hpp:375-392 | with no connection closing, n dispatches give every worker between floor(n/w) and ceil(n/w) of them if the 32-bit counter does not wrap or w divides 2^32 |
| EventLoopPool.EventLoopPool.DispatchLeastConnections | io/event_loop_pool.hpp:385-392 | with no connection closing, n dispatches meet the greedy bound and keep workers within d of each other |
| Buffer.StepShows | net/buffer.hpp:86-157 | each operation does to the readable bytes what it does to the stream of all bytes written; read and skip take exactly the next bytes; compaction and growth change nothing readable |
| Buffer.BufferIsStream | net/buffer.hpp:86-186 | over every run the buffer is the stream seen from the reading position |
| Buffer.FirstInFirstOut | net/buffer.hpp:86-186 | without retreat and clear, bytes taken followed by bytes readable are bytes readable at first followed by bytes written |
| Buffer.RetreatRestoresIff | net/buffer.hpp:143 | after any run that read n bytes on balance, a retreat by n makes readable again what was readable before plus all that was written since, iff the read position is still at least n |
| Buffer.RetreatUndoesRun | net/buffer.hpp:142-186 | over any run in which no step compacts, the view can be restored, followed by what was written meanwhile: by a retreat, or by a skip if the run itself went back |
| Buffer.RunIsFrugal | net/buffer.hpp:164-186 | every run keeps capacity <= max(initial, 4096, 2 x peak readable) and all growth copies together <= capacity - first block capacity |
| Buffer.HistoryIsKept | net/buffer.hpp:164-186 | the recorded peak and copy count are the largest readable size and the bytes copied by block replacements over the run |
| Buffer.FreshRunIsFrugal | net/buffer.hpp:164-186 | over every run from construction, with and without an initial capacity, capacity <= max(initial, 4096, 2 x peak readable) and the bytes copied by growth <= capacity - first block capacity |
| Buffer.MoveDown | net/buffer.hpp:150-157 | the in-place move brings the readable bytes to the front |
| Buffer.Buffer.constructor | net/buffer.hpp:69-69 | no block and nothing readable |
| Buffer.Buffer.WithCapacity | net/buffer.hpp:71-75 | an empty block of that capacity |
| Buffer.Buffer.CompactBlock | net/buffer.hpp:150-157 | same readable bytes, nothing before them |
| Buffer.Buffer.MakeWritable | net/buffer.hpp:164-186 | same readable bytes, room for `size` more, and the block size of the branch taken |
| Buffer.Buffer.Grow | net/buffer.hpp:180-185 | the larger block holds the same readable bytes |
| Buffer.Buffer.WriteBytes | net/buffer.hpp:86-90 | the data is appended to the readable bytes |
| Buffer.Buffer.ReadBytes | net/buffer.hpp:103-108 | returns and drops the first min(n, readable) bytes |
| Buffer.Buffer.SkipBytes | net/buffer.hpp:142-142 | drops the first min(n, readable) bytes |
| Buffer.Buffer.RetreatBytes | net/buffer.hpp:143-143 | gives back up to n bytes that are still in the block |
| Buffer.Buffer.ClearAll | net/buffer.hpp:145-148 | nothing readable, nothing to retreat to |
| LoadBalancer.TableMatchesWeights | rpc/loadbalance/load_balancer.hpp:79-85 | the table holds each index exactly max(1, weight) times, in ascending order, and no other number |
| LoadBalancer.TableLengthIsTotalWeight | rpc/loadbalance/load_balancer.hpp:79-85 | the table's length is W, the sum of max(1, weight) |
| LoadBalancer.EveryTurn | rpc/loadbalance/load_balancer.hpp:88-93 | in a table that goes on in step where the counter wraps, any full turn picks index i exactly as often as the table holds it |
| LoadBalancer.EveryTurnIsFairIff | rpc/loadbalance/load_balancer.hpp:88-93 | every full turn, also across the counter's wrap, is fair iff the table goes on in step there |
| LoadBalancer.FairOverEveryWindow | rpc/loadbalance/load_balancer.hpp:88-93 | any k consecutive selections pick endpoint i between floor(k/W) and ceil(k/W) times max(1, weight), W of them exactly that often, W being the sum of max(1, weight), if the counter does not wrap or the table is in step |
| LoadBalancer.RoundRobinIsWeightOne | rpc/loadbalance/load_balancer.hpp:54-59 | with no weight above one the table is the identity, so the choice is plain round robin |
| LoadBalancer.RoundRobinIsFairIff | rpc/loadbalance/load_balancer.hpp:54-59 | plain round robin gives each of w places one of every w consecutive selections, also across the wrap, iff w divides the counter's range |
| LoadBalancer.RoundRobinWindow | io/event_loop_pool.hpp:375-377 | any k consecutive selections give each of w places between floor(k/w) and ceil(k/w), if the counter does not wrap or w divides its range |
| LoadBalancer.WeightedRoundRobin.Update | rpc/loadbalance/load_balancer.hpp:74-86 | the nested loops leave each index max(1, weight) times in ascending order, and the counter at 0 |
| LoadBalancer.WeightedRoundRobin.Select | rpc/loadbalance/load_balancer.hpp:88-93 | nothing iff there are no endpoints, else the endpoint the table names at the counter, which then advances modulo 2^64 |
| LoadBalancer.WeightedRoundRobin.SelectMany | rpc/loadbalance/load_balancer.hpp:88-93 | k selections without update advance the counter by k modulo 2^64 and give every endpoint its share in terms of W, the sum of the weights, if the counter does not wrap or the table is in step |

## Left out

- Clocks, sockets, allocation failure, io_uring and coroutine frames: the clock, how much each read and write
  of a socket moves, and the results of `connected()`, of creating a socket and of submitting to a ring are
  parameters; the rest is not modelled.
- `size_t` and id counters of the timer, scheduler and pool are unbounded; only the wraps named in the contracts
  (expire tick of a zero delay, 32-bit lengths, the load balancers' counters) are modelled.
- Bitwise or of bytes in disjoint places is written as addition.
- The fast path that reads past the given bytes when a frame's inner lengths contradict its header: the parser model
  reports it as `PastEnd` and says nothing more about such frames.
- RpcServer.RpcServer.HandleMessage: does not cover frames that are read past their end, where the source's behaviour is
  undefined.
- RpcServer.RpcServer.HandleFrame: ends the connection at such a frame.
- RpcServer.RpcServer.HandleConnection: ends the connection at such a frame.
- Heartbeat, Stream and Error frames in the frame round trip: they are written with response metadata and read without.
- Map encoding: it has no decoder.
- The text around the emitted statements, type names and service stubs of the code generator, and the IDL parser.
- CodeGenerator.EmittedCodeMeans: does not model what a failed decode leaves in the member it was filling.
- Pool shutdown while connections are out, releasing a connection twice, and whether waiters are woken: acquire is
  modelled up to the wait and from the moment its condition holds.
- EventLoopPool.DispatchedTaskIsSafe: the worker's walk over the pending map is one step per entry, so more
  interleavings are covered than the lock allows; tasks there always carry a callable.
- Memory order of the atomics: each atomic operation is one indivisible step.
- Buffer copies that share a block, and writes whose source lies inside the buffer.
- Semaphores, mutexes, tasks and generators of the coroutine library, the event loop's own timers, random and static
  choices of endpoints, and the TCP client and server: plumbing, or easy members.
