# civan, verified

civan is a server framework of fibers over epoll. This project models its parts with the
hardest state and arithmetic, and proves what each of their steps keeps, over every input or
every run.

- **Chunked buffer** (`Chunks`, `ByteArray`): a linked chain of equal-size nodes with a cursor is
  proved to behave like one flat byte sequence. `flat` is that sequence; `Valid` ties it to the
  chain; `Synced` says that the cursor is in step with the position. Failures are outcomes:
  `OutOfRange` is the thrown exception, `NullCursor` a dereference of a null cursor.
- **Codecs on it** (`Codec`, `TypedStream`): zigzag, fixed-width numbers in both byte orders,
  base-128 varints, length-prefixed strings, and whole streams of such fields.
- **Sockets** (`SocketStream`): scatter receive, gather send, and the loops that insist on a length.
- **Logger** (`Logger`): two buffers swapped between producers and a flush thread.
- **Timers** (`Timer`, `WakeUp`): the ordered timer set as a class, and the wake-up protocol with the
  idle loop as a system of steps; each operation of the class is proved to be the step of its name.
- **Scheduler** (`Scheduler`): the worker loop over a shared queue as interleaved atomic steps.
- **Events** (`IoManager`, `DoIo`): registration per descriptor, and the hooked call that parks a
  fiber until readiness, timeout or cancel.
- **Text** (`Url`, `Params`, `Ipv6`): percent-encoding, form and cookie parameters, address printing.

The models follow the code where it departs from what is documented or meant, and say exactly when
it does what is meant:

- `write` leaves the cursor behind when it ends on a node boundary with nodes beyond it
  (`InStepAfterWrite`, `StaleCursor`).
- `readUint64` keeps 32 bits, and 64-bit zigzag loses values of 64 bits
  (`FieldReadsBackIffFits`, `Zigzag64RoundTrip`).
- `writeToFile` fails from inside a node with less than a node unread (`WriteToFile`, `UnsentTail`).
- The table of `UrlEncode` lets `=` stand for itself; the comment above the function does not list it.
- `cancelAll` triggers the read event in its write branch, and dispatch triggers reported events
  without checking each bit (`CancelAll`, `Dispatch`, `CancelAllAborts`, `StaleReportAborts`).
- `addEvent` looks at the size of the table in one locked section and resizes in the next, so it can
  shrink the table another call has grown (`LateResize`, `LateResizeLoses`, `AddToDropped`).
- Requeueing a READY fiber drops its pin to a thread (`PinAsPushed`, `PinDropped`). A pinned entry
  can be left behind, but none that was pushed before the stop (`PushedBeforeStopDrained`,
  `LeftBehind`, `PinnedLeftBehind`). One pinned to no worker keeps `stop` from returning
  (`PinHoldsAll`).
- The wait for a timer is narrowed to 32 bits: a long one can become a sleep without limit
  (`TooLongOversleeps`, `EndlessSleep`). A wait that a signal interrupts begins again in full
  (`OverrunOversleeps`, `InterruptOversleeps`).
- A timeout can be lost, to a callback that runs before registration or to a `cancelEvent` that fails
  (`TimeoutOnItsWay`, `TimeoutLost`, `TimeoutLostByFailure`).
- A timer that has expired but not run when readiness comes can time out the next attempt
  (`ExpiresInItsAttempt`, `EarlierAttemptTimesOut`).
- A callback of a call that has returned can wake the next call (`CallbackIsNoOp`, `HarmfulCanWake`,
  `LateCancelWakesNextCall`, `HeldCallbackWakesNextCall`).
- `delParam` before the first parse does not last (`DelParam`, `DeletedComesBack`).

## Model

| member | source | states |
|---|---|---|
| ByteArrays.ByteArray.constructor | civan/bytearray.cc:34-43 | a new buffer is one empty node, with the cursor on it and nothing written |
| ByteArrays.ByteArray.Clear | civan/bytearray.cc:370-382 | leaves one node, position and size 0, fit for appending again, whatever was in the buffer |
| ByteArrays.ByteArray.Locate | civan/bytearray.cc:474-491 | the walk from the root finds the node of a byte, and null exactly at the end of the chain |
| ByteArrays.ByteArray.SetPosition | civan/bytearray.cc:474-491 | out of range exactly beyond the capacity; otherwise the position moves, the size grows with it, and the cursor is in step, null exactly at the end of the chain |
| ByteArrays.ByteArray.AddCapacity | civan/bytearray.cc:555-582 | room for n bytes with the least number of nodes; old bytes and nodes stay; at the end of the chain the cursor moves to the first new node |
| ByteArrays.ByteArray.Fill | civan/bytearray.cc:385-413 | the copy loop of write overwrites exactly the given stretch of the flat sequence and ends on the node of the last byte |
| ByteArrays.ByteArray.Write | civan/bytearray.cc:385-413 | with a cursor in step, exactly flat[pos..pos+n) is overwritten, all other bytes stay, the chain grows least, size is the maximum; it dereferences a null cursor exactly when there is something to write and the cursor is null |
| ByteArrays.InStepAfterWrite | civan/bytearray.cc:396-398 | after a write the cursor is in step exactly when the write ends inside a node or at or beyond the old end of the chain |
| ByteArrays.StaleCursor | civan/bytearray.cc:396-398 | a concrete run in which a write that ends on a node boundary makes the next one land one node too early |
| ByteArrays.ByteArray.Read | civan/bytearray.cc:415-442 | for every state: out of range, null cursor, or the n bytes from where the cursor points, which with a cursor in step are flat[pos..pos+n); the position moves and the cursor stays in step, null exactly at the end of the chain |
| ByteArrays.ByteArray.ReadAt | civan/bytearray.cc:444-472 | the positional read takes its node from the cursor, so it returns the bytes asked for exactly when they start in the cursor's node; beyond the size the 64-bit difference wraps and the bound is passed; every case has its outcome |
| ByteArrays.ByteArray.GatherToEnd | civan/bytearray.cc:415-472 | a copy walk that returns the flat slice exactly when it fits the chain and otherwise runs off its end |
| ByteArrays.ByteArray.ToString | civan/bytearray.cc:584-593 | all unread bytes from where the cursor points, so flat[pos..size) with a cursor in step, position unmoved |
| ByteArrays.ByteArray.WriteToFile | civan/bytearray.cc:494-507 | for any cursor: sends all unread bytes, from where the cursor points (flat[pos..size) with a cursor in step), exactly when nothing is unread, the position is on a node boundary, or a node's worth is unread; in every other case it fails |
| ByteArrays.UnsentTail | civan/bytearray.cc:494-507 | a concrete buffer whose two unread bytes cannot be sent |
| ByteArrays.ByteArray.GetReadBuffers | civan/bytearray.cc:611-642 | the list shows min(len, unread) bytes from the cursor on, in order |
| ByteArrays.ByteArray.GetReadBuffersAt | civan/bytearray.cc:644-678 | whatever the cursor, the list shows min(len, size-p) bytes of the flat sequence from p on; beyond the size the difference wraps, and the list is what was asked for as long as it stays in the chain, a null node otherwise |
| ByteArrays.ByteArray.IovecsShow | civan/bytearray.cc:611-678 | a list cut along the chain concatenates to one slice of the flat sequence |
| ByteArrays.ByteArray.GetWriteBuffers | civan/bytearray.cc:680-708 | null cursor exactly when there is none and room is wanted; otherwise the least growth and a list for the next len bytes |
| ByteArrays.ByteArray.WriteStringWithoutLength | civan/bytearray.cc:211-214 | a buffer only appended to stays so, and its content is the old content followed by the value: every append-only run keeps the cursor in step |
| Codec.ZigzagInterleaves | civan/bytearray.cc:116-130 | with wrap-around arithmetic, zigzag maps v to 2v or -2v-1, and the decoder inverts it |
| Codec.Zigzag32Bijection | civan/bytearray.cc:116-134 | 32-bit zigzag is a bijection between int32 and uint32, inverted both ways by the decoder |
| Codec.Zigzag64RoundTrip | civan/bytearray.cc:124-138 | 64-bit zigzag comes back exactly for values of 63 bits, since the decoder shifts a signed value |
| Codec.Zigzag64Fails | civan/bytearray.cc:124-138 | 2^62 comes back as -2^62 |
| Codec.WireOrder | civan/bytearray.cc:64-114 | fixed-width bytes on the wire follow the buffer's byte order, whatever the host's is |
| Codec.LowFirstAt | civan/bytearray.cc:64-114 | byte i of a number, lowest first, is its digit i in base 256 |
| Codec.FixedRoundTrip | civan/bytearray.cc:64-280 | a fixed-width number written on a host of either byte order reads back the same on any other |
| Codec.VarintShape | civan/bytearray.cc:147-172 | a number below 128^n takes 1 to n bytes, the top bit set on all but the last |
| Codec.VarintAt | civan/bytearray.cc:147-172 | byte i of a varint carries digit i of the number in base 128 |
| Codec.EncodeVarint | civan/bytearray.cc:147-156 | the writer's loop computes the base-128 form |
| TypedStream.VarintTail | civan/bytearray.cc:286-317 | the reader consumes exactly the bytes of a varint below 2^32 and returns its value, in any surroundings |
| TypedStream.VarintBelow32Bits | civan/bytearray.cc:305-317 | the 64-bit reader never returns more than 32 bits |
| TypedStream.NumberRoundTrip | civan/bytearray.cc:64-317 | every fitting number of every kind reads back, with exactly its bytes consumed |
| TypedStream.FieldRoundTrip | civan/bytearray.cc:187-367 | a fitting field reads back, except an empty string that ends a full chain: that read goes through the null cursor |
| TypedStream.FieldReadsBackIffFits | civan/bytearray.cc:158-367 | among all values the parameter types admit, exactly those read back that fit: 64-bit varints below 2^32, strings whose length fits the prefix |
| TypedStream.StreamRoundTrip | civan/bytearray.cc:64-367 | every list of fitting fields reads back as itself, unless the last one is an empty string and the bytes fill the chain |
| TypedStream.WriteField | civan/bytearray.cc:64-213 | writing a field to a buffer appends exactly its encoding |
| TypedStream.NumberOnWire | civan/bytearray.cc:64-185 | every number the parameter types admit goes out as its base-256 digits in the buffer's byte order, two's complement if signed, or as a varint, zigzagged if signed |
| TypedStream.TextOnWire | civan/bytearray.cc:187-209 | a string goes out behind its length: two, four or eight bytes of it in the buffer's byte order, or a varint |
| TypedStream.ShortTextOnWire | civan/bytearray.cc:187-190 | the 16-bit prefix of a string below 65536 bytes, byte by byte |
| TypedStream.TextFits | civan/bytearray.cc:187-209 | a string fits exactly below 2^16, 2^32, 2^64 and 2^32 bytes for the four kinds of prefix |
| TypedStream.OverlongVarint | civan/bytearray.cc:286-317 | a varint whose bytes are all marked is read for five bytes, or ten for the 64-bit reader, and no further |
| TypedStream.ReadField | civan/bytearray.cc:216-367 | reading a field from a buffer gives what the byte-level reader gives, and leaves the buffer where it says |
| TypedStream.RoundTrip | civan/bytearray.cc:64-442 | for every base size, byte order and host: fields written to a fresh buffer, then setPosition(0), read back as the same list, with the exact exception computed from the encoded length |
| SocketStreams.PatchedTwice | civan/stream.cc:19-29 | two flat writes side by side are one |
| SocketStreams.SocketStream.Read | civan/socket_stream.cc:28-39 | for any cursor, a scatter receive of whatever arrived has the effect of a flat write of it where the cursor points (the position, with a cursor in step), moves the position and puts the cursor in step; what it returns is the least of what was asked for, what has arrived and what the kernel grants, and uses up one grant; a null cursor fails exactly when connected with something to read |
| SocketStreams.SocketStream.ReadFixSize | civan/stream.cc:19-29 | over any sequence of short reads, what is stored is exactly what was received, in order, also on failure: at the position with a cursor in step, otherwise the first piece where the cursor points and the rest behind the position; how much that is: the least of the length, what has arrived and what the kernel lets through before its first failure; the length is returned exactly when that is all of it |
| SocketStreams.SocketStream.Write | civan/socket_stream.cc:48-59 | what goes out is a prefix of the unread bytes from where the cursor points; how much is the least of what was asked for, what is unread and the grant; the position moves over as many and the cursor is in step again |
| SocketStreams.SocketStream.WriteFixSize | civan/stream.cc:46-56 | with a cursor in step what went out is what the position moved over, otherwise the first piece is what the cursor points at; it is the least of the length, what is unread and what the kernel lets through, and success exactly when that is the whole length |
| SocketStreams.SocketStream.ReadFixSizeRaw | civan/stream.cc:5-17 | the memory filled is the received prefix, the rest untouched; success exactly when connected and the length has arrived and is let through |
| SocketStreams.SocketStream.WriteFixSizeRaw | civan/stream.cc:31-44 | what went out is a prefix of the memory; success exactly when connected and the kernel lets the length through |
| SocketStreams.InsistingTurn | civan/stream.cc:5-56 | one turn of a loop that insists on a length leaves the least of length, supply and allowance to be moved by the rest |
| SocketStreams.OneByteEach | civan/stream.cc:5-56 | as many positive grants as bytes always let them through |
| Loggers.OutputsArePrefixes | civan/log.cc:315-338 | conservation implies that each output is a prefix of what was logged up to the last swap, and all of that once the flush thread is waiting again |
| Loggers.ConservedDrain | civan/log.cc:328-333 | one appender's turn moves what was owed to it into its output, for no other appender |
| Loggers.Logger.LogText | civan/log.cc:291-304 | an append under the lock keeps the stream whole and adds exactly the text, if the level is high enough |
| Loggers.Logger.Swap | civan/log.cc:318-324 | the swap keeps the stream whole; what was collected is now owed to every appender |
| Loggers.Logger.Rewind | civan/log.cc:325-328 | the buffer taken out is drained exactly when it is not empty |
| Loggers.Logger.Drain | civan/log.cc:329-331 | an appender's turn never fails and keeps the stream whole |
| Loggers.Logger.Clear | civan/log.cc:332-332 | clearing after the last appender loses nothing and leaves a buffer fit for appending |
| Loggers.Logger.Run | civan/log.cc:291-338 | in every interleaving of log and flush steps: output ++ owed is what was logged up to the last swap, in lock order, for each appender, and what is collected has been logged since; once the flush thread has swapped and is waiting again, everything logged before is out, whoever logs in between, and that is so after at most as many of its steps as are left of its turn and make one turn more |
| Loggers.Logger.FlushRound | civan/log.cc:315-338 | with nobody logging, a whole turn of the flush thread puts out everything |
| Timers.TimerManager.LowerBound | civan/timer.cc:159-160 | the search splits the ordered set at the key |
| Timers.TimerManager.Find | civan/timer.cc:46-46 | a known timer is found by its key exactly when it is in the set |
| Timers.TimerManager.Insert | civan/timer.cc:181-182 | insertion keeps the strict order; the place is first exactly when the timer is before all others |
| Timers.TimerManager.AddTimer | civan/timer.cc:105-112 | the set grows by the new timer; the membership invariant survives exactly when there is a callback; a tickle is asked for exactly at the front and not asked for yet |
| Timers.TimerManager.Release | civan/timer.cc:166-178 | letting go of the last reference to a timer outside the set keeps the invariants and frees its address for a new one |
| Timers.TimerManager.Cancel | civan/timer.cc:42-51 | true exactly when there is a callback, which is then gone, so a second cancel is false; the find never fails |
| Timers.TimerManager.Refresh | civan/timer.cc:53-67 | the set keeps its members and order; the expiry time is now plus the period |
| Timers.TimerManager.Reset | civan/timer.cc:69-94 | the new period counts from now or from the recovered start; the no-change request succeeds even for a cancelled timer; the front rule decides the tickle |
| Timers.TimerManager.GetNextTimer | civan/timer.cc:127-141 | the distance to the smallest expiry time, 0 if past, all ones if there is none; the tickle mark is cleared |
| Timers.TimerManager.DetectClockRollover | civan/timer.cc:194-202 | true exactly when the clock went back by more than an hour, that is 3600000 ms, or at all from a reading within an hour of zero |
| Timers.TimerManager.ExpiredEnd | civan/timer.cc:159-164 | whatever the probe's address, the end found splits the set at expiry times up to now |
| Timers.TimerManager.ListExpired | civan/timer.cc:144-178 | exact expiry: callbacks of exactly the due timers (all after a rollover), in nondecreasing expiry time; one-shots leave without callback, recurring ones return at now plus period, others untouched; membership kept |
| Timers.Run | civan/timer.cc:42-202 | every run of add, cancel, refresh, reset, free, look and expire, at any times, with addresses of freed timers used again, keeps the set strictly ordered and a timer in it exactly while it has its callback |
| WakeUps.TimeoutBound | civan/iomanager.cc:290-300 | the sleep passed to epoll_wait is at most the wait and the maximum, it is the wait itself up to 10000 ms and 10000 beyond, and unlimited exactly when the low half of the wait has its top bit set |
| WakeUps.RefreshNotEarlier | civan/timer.cc:53-67 | a refresh never makes a timer earlier, exactly unless its expiry time crosses the end of the 64-bit range |
| WakeUps.StepKeepsInv | civan/timer.cc:53-94 | every step of the protocol keeps: the sleep has a limit and ends by the first expiry time, or a wake-up is on its way; except a refresh that crosses the 64-bit range, a look whose wait is too long and an interrupted wait that overruns; emptying the pipe is a step of its own, after the wake-up |
| WakeUps.NeverOversleeps | civan/iomanager.cc:279-305 | in every state of every run with a monotone clock, in which no refresh crosses, no wait is too long and no interrupted wait overruns, no wake-up is lost |
| WakeUps.SignalUntilRead | civan/iomanager.cc:318-322 | a byte in the pipe stays until the thread that was told of it empties the pipe, and is gone then |
| WakeUps.TooLongOversleeps | civan/iomanager.cc:290-300 | a wait is too long exactly when the sleep has no limit, and then the timer is overslept unless a wake-up is on its way |
| WakeUps.OverrunOversleeps | civan/iomanager.cc:300-306 | a wait begun again after a signal oversleeps exactly when it has a length and lasts beyond a timer, unless a wake-up is on its way |
| WakeUps.InterruptOversleeps | civan/iomanager.cc:300-306 | a concrete run in which a signal half-way through the wait for a timer of 5 s loses the wake-up |
| WakeUps.EndlessSleep | civan/iomanager.cc:290-300 | a concrete run in which a timer of 2^31 ms is due and the thread sleeps on |
| WakeUps.CrossingOversleeps | civan/timer.cc:64-65 | a concrete run, at a present-day clock reading, in which a crossing refresh loses a wake-up |
| WakeUps.DoAdd | civan/timer.cc:105-112 | the add operation of the timer set is the add step of the protocol |
| WakeUps.DoCancel | civan/timer.cc:42-51 | cancel is the cancel step |
| WakeUps.DoRefresh | civan/timer.cc:53-67 | refresh is the refresh step |
| WakeUps.DoReset | civan/timer.cc:69-94 | reset is the reset step |
| WakeUps.DoLook | civan/timer.cc:127-141 | getNextTimer with the timeout computation is the look step |
| WakeUps.DoExpire | civan/timer.cc:144-178 | listExpiredCb is the expire step |
| Schedulers.ScanQueue | civan/scheduler.cc:174-198 | the search loop finds the earliest eligible entry and asks for a tickle exactly when it passed one pinned to another thread |
| Schedulers.StepKeepsCounted | civan/scheduler.cc:193-242 | the active counter equals the number of workers between pop and decrement |
| Schedulers.StepConserves | civan/scheduler.cc:168-256 | every pushed entry stays in exactly one place: the queue in push order, the hands of one worker, or the consumed |
| Schedulers.StepKeepsExclusive | civan/scheduler.cc:205-250 | a fiber is EXEC exactly while one worker executes it |
| Schedulers.StepKeepsOneTicket | civan/scheduler.cc:168-256 | a fiber has at most one ticket, and one about to be switched in is not EXEC, so the assertion of swapIn never fires |
| Schedulers.StepKeepsDrains | civan/scheduler.cc:135-260 | while an unpinned entry is queued, some worker will look at the queue again |
| Schedulers.Invariant | civan/scheduler.cc:153-260 | all of these hold in every state of every run |
| Schedulers.Drained | civan/scheduler.cc:74-139 | when the last worker has left run(), only pinned entries can be queued |
| Schedulers.UnpinnedDrained | civan/scheduler.cc:74-139 | with unpinned work the queue is then empty, the counter 0, and every entry ever pushed consumed, although a READY fiber is requeued only after the counter drops |
| Schedulers.FiberByHistory | civan/scheduler.cc:205-238 | a fiber's state is how its last turn ended, EXEC during one |
| Schedulers.ConsumedWasRun | civan/scheduler.cc:203-250 | an entry that is consumed has been switched in, unless its fiber's last turn ended in TERM or EXCEPT before a worker came to run it |
| Schedulers.HeldCanRun | civan/scheduler.cc:205-245 | a popped entry can be switched in exactly unless its fiber has ended so, and dropped exactly then |
| Schedulers.ReadyRunsAgain | civan/scheduler.cc:208-212 | a fiber that yields READY is switched in again before the last worker leaves |
| Schedulers.CanYield | civan/scheduler.cc:205-216 | a running fiber can yield in every state but EXEC, READY exactly if it is not queued |
| Schedulers.NeverStuck | civan/scheduler.cc:168-260 | every worker that has not left has a next step: it leaves at the head of its loop exactly when stopping, and pops exactly when an entry is there for it |
| Schedulers.StoppedCanEnd | civan/scheduler.cc:135-260 | once stopping holds and no fiber is about to be queued again, all workers can leave |
| Schedulers.PopIsEarliest | civan/scheduler.cc:174-198 | a pop takes the entry pushed first among those its worker may take; a pinned entry goes to its own thread |
| Schedulers.LeftBehind | civan/scheduler.cc:135-260 | an entry still queued when the last worker has left was pushed when every worker had left already or its idle fiber had ended |
| Schedulers.PushedBeforeStopDrained | civan/scheduler.cc:74-139 | every entry pushed before the stop, pinned or not, has been consumed when the last worker has left |
| Schedulers.NeverTaken | civan/scheduler.cc:176-199 | an entry pinned to a worker that has left, or to none, stays queued for ever |
| Schedulers.PinHoldsAll | civan/scheduler.cc:135-199 | as long as such an entry is queued, no worker whose idle fiber is alive ever leaves, so stop() does not return |
| Schedulers.PinHonoured | civan/scheduler.cc:176-199 | a worker never has another thread's entry in hand |
| Schedulers.PinAsPushed | civan/scheduler.cc:208-230 | each push puts one entry at the end, for the work its pusher asked for and pinned as it asked, exactly unless it is the new one of a fiber that came back READY, which is open to every worker |
| Schedulers.PinDropped | civan/scheduler.cc:208-209 | a concrete run in which a fiber pinned to one worker yields READY and runs on another |
| Schedulers.PinnedLeftBehind | civan/scheduler.cc:135-260 | a concrete run that ends with every worker gone and a callback, pinned after the stop to a worker that had left, never run |
| IoManagers.FdContext.TriggerEvent | civan/iomanager.cc:33-45 | fails exactly when the bit is clear; otherwise hands out the waiter once and empties slot and bit |
| IoManagers.TotalChange | civan/iomanager.cc:131-132 | the count of pending events changes as much as one context does |
| IoManagers.IOManager.ContextResize | civan/iomanager.cc:84-93 | growing keeps everything in agreement; a late resize that shrinks does exactly when no dropped context has an event |
| IoManagers.IOManager.AddEvent | civan/iomanager.cc:96-146 | aborts exactly when the event is registered; the slot is then never found occupied; on success exactly this waiter, the callback or else the fiber, is added and counted; the table grows to one and a half times the descriptor; a resize that comes after another one is an operation of its own |
| IoManagers.IOManager.DelEvent | civan/iomanager.cc:148-181 | takes out exactly this waiter without waking it, and nothing when not registered or epoll_ctl fails |
| IoManagers.IOManager.CancelEvent | civan/iomanager.cc:185-214 | wakes exactly this waiter, once |
| IoManagers.IOManager.CancelAll | civan/iomanager.cc:216-252 | aborts exactly when a writer is registered (the second branch triggers the read event); otherwise wakes the reader |
| IoManagers.CancelAllAborts | civan/iomanager.cc:240-249 | a registered writer alone ends the process in cancelAll |
| IoManagers.IOManager.Dispatch | civan/iomanager.cc:316-363 | wakes exactly the waiters of the reported events, reader first; aborts exactly when something not registered is reported beside something that is; case by case: a lone reader is woken exactly by readable, error or hang-up, a lone writer by writable, error or hang-up, both by an error or a hang-up and else each by its own |
| IoManagers.StaleReportAborts | civan/iomanager.cc:339-362 | a report of an unregistered write event beside a registered read event ends the process |
| IoManagers.IOManager.LateResize | civan/iomanager.cc:104-107 | a resize decided on before another one sets the size regardless; bits, slots, count and epoll interest stay in agreement exactly when no context it drops has an event |
| IoManagers.LateResizeLoses | civan/iomanager.cc:104-107 | a concrete run in which the late resize of one call drops the context another has registered: the count and the epoll interest remain, the waiter is gone from the table |
| IoManagers.IOManager.AddToDropped | civan/iomanager.cc:109-146 | a registration on a context that a late resize dropped breaks the agreement exactly when epoll_ctl succeeds |
| IoManagers.IOManager.Apply | civan/iomanager.cc:96-363 | any operation, late resizes among them, keeps bits, slots, count and epoll interest in agreement and does not abort, exactly unless it is one of the fatal ones, decided by what is registered before |
| IoManagers.IOManager.Run | civan/iomanager.cc:96-363 | every run goes on exactly up to its first fatal operation, and keeps the agreement until there |
| DoIos.StepAnswersOnce | civan/hook.cc:111-146 | each park is answered by at most one enqueue |
| DoIos.StepEarnsMark | civan/hook.cc:117-124 | the timeout mark is set only by a callback of the call's own timers |
| DoIos.StepKeepsTimeout | civan/hook.cc:116-146 | every step, a cancel that fails among them, keeps: a waiting call with a timeout has one on its way exactly unless its park has lost it |
| DoIos.Invariant | civan/hook.cc:103-149 | all of these hold in every state of every run |
| DoIos.OneAnswerPerPark | civan/hook.cc:103-149 | no park is answered twice, whichever of readiness, timer and cancel comes first |
| DoIos.TimedOutByOwnTimer | civan/hook.cc:138-144 | ETIMEDOUT only if this call's timer callback ran |
| DoIos.CheckDecides | civan/hook.cc:138-146 | a woken call times out exactly when a callback of one of its own timers has set its mark, and otherwise tries again |
| DoIos.SetTimerIsCurrent | civan/hook.cc:116-138 | in every state of every run a set timer is that of the current attempt, so there is at most one, and none once the fiber has resumed or the call has returned |
| DoIos.ExpiresInItsAttempt | civan/hook.cc:116-138 | so a timer expires only during the attempt that set it |
| DoIos.EarlierAttemptTimesOut | civan/hook.cc:117-142 | a concrete run in which the callback of an earlier attempt, expired but not yet run when readiness came, times out the next attempt, whose own timer is still set |
| DoIos.TimesOutOnlyIfAsked | civan/hook.cc:99-125 | a call without a timeout never times out, whatever callbacks of earlier calls do |
| DoIos.FiberGoesOn | civan/hook.cc:103-149 | the fiber can go on in every state but one: while it waits |
| DoIos.WaitEnds | civan/hook.cc:134-138 | readiness, a foreign cancel and the callback's cancel each end the wait, once |
| DoIos.SlotFreeWhenAdding | civan/hook.cc:127-127 | registering never finds the slot occupied by the fiber's own earlier park |
| DoIos.CallbackIsNoOp | civan/timer.cc:114-119 | once the call has returned, a callback changes nothing but its own state if it is over, or not past its check and the call is marked or no callback of the call has a reference to its record |
| DoIos.HarmfulCanCancel | civan/hook.cc:117-124 | in every other case the callback can still go through and cancel |
| DoIos.HarmfulCanWake | civan/hook.cc:117-124 | and if its call has returned, it can cancel while the fiber waits in a later call, and wake that park: the condition is exact for the harm |
| DoIos.TimeoutOnItsWay | civan/hook.cc:116-136 | over every run: a waiting call with a timeout has one on its way exactly when neither its registration nor a failed cancel during its park found the mark set and no canceller left |
| DoIos.TimeoutCanArrive | civan/hook.cc:117-124 | a timeout on its way can arrive: the callbacks alone can end the wait |
| DoIos.TimeoutNeverArrives | civan/hook.cc:117-124 | and one that is not on its way never does, whatever the callbacks do |
| DoIos.TimeoutLostByFailure | civan/iomanager.cc:204-210 | a concrete run in which the call parks in time, cancelEvent fails after the mark is set, and the timeout is lost |
| DoIos.TimeoutLost | civan/hook.cc:116-127 | a concrete run in which the callback runs before registration and the timeout is lost |
| DoIos.LateCancelWakesNextCall | civan/hook.cc:122-123 | a concrete run in which a callback past its check wakes the next call |
| DoIos.HeldCallbackWakesNextCall | civan/hook.cc:117-124 | a concrete run in which the call succeeds while a callback has only taken its reference, and that callback wakes the next call |
| Urls.UrlEncode | civan/util.cc:130-159 | the encoder with its late buffer computes the character-by-character encoding |
| Urls.UrlDecode | civan/util.cc:161-190 | the decoder with its late buffer computes the character-by-character decoding |
| Urls.RoundTrip | civan/util.cc:130-190 | for all strings and flags, decoding undoes encoding exactly unless a space became a plus sign the decoder does not read as one |
| Urls.EncodeWellFormed | civan/util.cc:130-159 | encoded text has only table characters, escapes in upper-case digits and, if asked for, plus signs |
| Urls.EncodeAvoids | civan/util.cc:84-159 | no reserved character survives encoding |
| Urls.Tables | civan/util.cc:84-113 | the table of characters that stand for themselves, in characters |
| Urls.HexDigits | civan/util.cc:115-132 | which characters are hexadecimal digits, of either case, and their values; the encoder uses upper case |
| Urls.DecodeHead | civan/util.cc:161-190 | an escape in digits of either case stands for its character; a percent sign that starts none stands for itself, a plus sign for a space exactly if asked for |
| Params.TrimCuts | civan/util.cc:192-199 | trimming cuts from the first character that is not blank to the last |
| Params.TrimBlank | civan/util.cc:192-199 | a text of blanks only is trimmed to nothing |
| Params.Characters | civan/http/http.cc:217-235 | which characters are blanks, separators and letters to fold |
| Params.FoldAt | civan/http/http.cc:53-56 | names are compared in lower case, up to a NUL |
| Params.ParseParam | civan/http/http.cc:217-235 | the parsing loop terminates and inserts exactly the raw pairs, decoded, first wins |
| Params.PairsRoundTrip | civan/http/http.cc:217-235 | pairs with encoded values, joined by a reserved separator, parse as themselves exactly when no key has an equals sign |
| Params.ParamRoundTrip | civan/http/http.cc:217-235 | parsing joined pairs gives under every case-insensitive name the value of the first pair of that name |
| Params.InsertAllGet | civan/http/http.cc:227-228 | insertion keeps earlier values: what was there first, else the first pair of the name |
| Params.HttpRequest.InitParams | civan/http/http.cc:212-251 | parsing on demand changes what no name stands for |
| Params.HttpRequest.GetParam | civan/http/http.cc:79-85 | what was set, else the query's first pair, else the body's; asking changes nothing |
| Params.HttpRequest.SetParam | civan/http/http.cc:98-100 | a value set stands from then on, parsed or not |
| Params.HttpRequest.DelParam | civan/http/http.cc:110-112 | the name is gone exactly when no pair of that name is still to be parsed |
| Params.DeletedComesBack | civan/http/http.cc:110-112 | a concrete request whose deleted parameter comes back with the first parse |
| Params.HttpRequest.GetCookie | civan/http/http.cc:87-92 | what was set, else the first cookie of that name, trimmed and compared without case |
| Params.QueryRoundTrip | civan/http/http.cc:212-235 | pairs with encoded values, joined by '&' into a query, are the request's parameters: each name has the value of its first pair, else the default is returned |
| Params.FormRoundTrip | civan/http/http.cc:238-250 | so are those of a body whose content type is application/x-www-form-urlencoded |
| Params.CookieRoundTrip | civan/http/http.cc:252-265 | and the cookies, joined by ';', with names trimmed |
| Ipv6.Insert | civan/address.cc:403-425 | the loop prints the groups with the first zero run as "::", then the port |
| Ipv6.DigitsShape | civan/address.cc:403-425 | numbers are printed in lower-case digits of their base, without leading zeros |
| Ipv6.TextDouble | civan/address.cc:403-425 | "::" occurs at most once: exactly where the first run of zeros was |
| Ipv6.ExpandOfText | civan/address.cc:403-425 | expanding the text by section 2.2 of RFC 4291 gives the eight groups back |
| Ipv6.PrintingIsInjective | civan/address.cc:403-425 | different addresses or ports print differently |

## Left out

- System calls: whether `epoll_ctl` succeeds, what the kernel moves, the clock and object addresses are inputs of the steps.
- WakeUps.DoLook: reading the clock, looking at the set and the start of `epoll_wait` are one instant.
- Fiber switching: the instant between a fiber's state change and its context switch is part of one step.
- Unlocked checks: those before a lock in `delEvent`, `cancelEvent`, `cancelAll` and `listExpiredCb` are part of the locked step.
- Closing a descriptor without cancelling its events first, which removes it from epoll behind the manager's back.
- WakeUps.NeverOversleeps: one idle thread; with several, the one that a pipe byte wakes need not be the one that oversleeps.
- Schedulers.Drained: assumes, as its steps say, that after the stop only running fibers and the idle loop schedule, and that no fiber is queued twice.
- SocketStreams.SocketStream.ReadFixSize: does not model the narrowing of a length above 31 bits to the `int` it returns, because lengths are unbounded here.
- Loggers.Logger.Run: a fixed list of appenders; the console appender and formatting are not modelled.
- Ipv6.Insert: takes the groups as host numbers; the byte swap before printing is not modelled.
- Keys of parameters as they were spelled: the maps are by folded name.
- Setters of query, body and headers after parsing, and the typed getters of parameters.
- `readFromFile`, `toHexString`, float and double codecs beyond their bit patterns: they add nothing to the buffer's own behaviour.
- The URI and HTTP parsers, which are generated, and the request session that drives them.
- Configuration, servlets, the descriptor manager, address ranges and masks: they would only add easy members.
