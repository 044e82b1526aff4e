# Verified model of the cooper network library

This project models the stateful core of cooper, a reactor network library in C++, in Dafny
and proves what that code promises. Code that works by changing things step by step is
modelled by classes and methods with loops; code that runs on several threads is modelled as
a machine of atomic steps, and the theorems range over every interleaving. Time is counted in
ticks; the kernel (sockets, `sendfile`, eventfd, timerfd, `readv`) appears as arguments that
may take any value the kernel may answer with.

| files | what they model |
|---|---|
| `Powers`, `Deadlines`, `Calendar`, `TimingWheel`, `Schedule`, `WheelView`, `WheelRun` | the hierarchical timing wheel: the division and modulo arithmetic of an insertion, the cascade of wrappers, ticks, teardown, and the lifetime of entries that are inserted again and again |
| `MpscQueue`, `EventLoop`, `LoopProgress` | the lock-free queue over a heap with reusable addresses, the wakeup protocol of the event loop on top of it, and the loop getting through what is queued |
| `SendOrder`, `TcpConnection`, `SendPath` | the order in which sends from many threads reach a connection, the write list of data and file nodes, partial writes and the deferred half-close |
| `Sequences`, `Bytes`, `MsgBuffer` | searching, integers in network order, and the growable byte buffer over an array |
| `Multipart` | the streaming scan for the delimiter of section 5.1.1 of RFC 2046 |
| `TimerQueue` | timers, the ids that are live, cancellation from callbacks, and the arming of the timerfd |
| `Heartbeat` | PING, PONG and giving up on one connection, run on the timing wheel |
| `Numerals`, `LogStream` | integers to text and back, and the buffer that spills into a string |
| `Tokenizers` | `splitString`, `split` with `trim`, `isValidPath` |
| `Options` | an option type |

## How the main results fit together

*Timing wheel.* `Calendars` is the plain meaning of a wheel: a set of references, each with the
tick at which it is dropped. `Deadlines.PlaceExact` shows by induction over the wheels that the
insertion loop loses nothing but what clamping takes; `Deadlines.InsertBetweenTicks` turns that
into "dropped at counter + delay + 1 if and only if the delay is below the horizon". The methods
of `TimingWheels.TimingWheel` are proved against the calendar: a tick destroys exactly the
entries whose last reference is due and moves no other deadline. `WheelRuns.RunWheel` lifts this
to whole runs of the class, with destructors that insert again; `Schedules.IdleEntryExpires` and
`Calendars.EntryLifetime` say what such a run means for an entry, and `Heartbeats` runs a
connection's heartbeat on it.

*Queue and loop.* `MpscQueues.RunIsSafe` holds for every interleaving of producers and the
consumer, down to single loads, exchanges, stores and frees, and `MpscQueues.DequeuedWasSent` says
that what comes out is what the steps of the run have put in. `EventLoops.NoLostWakeup` and
`EventLoops.CalledInOrder` are stated over the machine that contains that queue;
`LoopProgress.LoopDrains` adds that the loop thread can always get through what is queued.

*Sending.* `SendOrders.SendsKeepOrder` fixes the order in which payloads reach the connection, and
`SendOrders.EverythingArrives` that they can always get there;
`TcpConnections.RunLoop` and `TcpConnections.Drain` say what then happens to their bytes, and
`SendPaths.RunThreads` joins the two: for any mix of threads the wire carries the payloads in the
order in which the calls took the mutex.

*Whole runs of the classes.* `WheelRuns.RunWheel`, `Heartbeats.RunHeartbeat`,
`MsgBuffers.RunBuffer`, `SendPaths.RunThreads` and `LogStreams.LogStream.WriteAll` run the classes
over any sequence of operations.

## What the proofs found out about the code

- An entry inserted by a destructor in the middle of a tick, with two or more wheels, is dropped
  one turn of its wheel too early exactly when its delay is for a wheel above the lowest that
  still has to turn on this tick (`Deadlines.DuringTickIsExactIff`;
  `Deadlines.LongInsertDuringTickCanBeEarly` gives an input).
- For heartbeat intervals from 500 on this makes PINGs come early. Every kickoff comes before the
  next PING if and only if the interval exceeds the timeout by more than the difference of the
  turns that the two delays can lose (`Heartbeats.OrderedIffKickoffFirst`). Up to an interval of
  10000 that is always so (`Heartbeats.LongIntervalIsOrdered`); where it is not, some connection's
  first PING already runs into its second (`Heartbeats.UnorderedIsReached`, with an input in
  `Heartbeats.VeryLongIntervalIsNotOrdered`).
- A delay past the horizon fires early, by whole steps of the top wheel
  (`Deadlines.InsertBetweenTicks`, `Deadlines.ClampedIffBeyondHorizon`).
- `MsgBuffer::retrieveAll` shrinks only a buffer that was made for fewer than 8 bytes, and its
  indices then point past the end (`MsgBuffers.MsgBuffer.RetrieveAll` states the condition both ways).
- `sendFile(name, offset)` without a length takes the size of the whole file; with a non-zero
  offset such a node stays at the front of the write list for good
  (`TcpConnections.StuckForGood`, `TcpConnections.SendNamedFile`).
- A first `sendfile` that moves nothing does not start the channel, and the list then waits until
  the first non-empty data send on the open connection, whatever else happens
  (`TcpConnections.TcpConnection.PushFile`, `TcpConnections.Wait`). For data nodes this cannot
  happen without a write error.
- `loop()` sets `looping_` and then clears `quit_`. A `quit()` made before that second store is
  lost, even if it comes when the loop already counts as running
  (`EventLoops.QuitBeforeLoopIsLost`, `EventLoops.QuitWhileEnteringIsLost`). The loop ends exactly
  for a `quit()` that sets the flag after it was cleared (`EventLoops.QuitIsLatestRequest`,
  `EventLoops.LoopEndsIffAsked`).
- `split` without an end pointer never trims the left end of a segment
  (`Tokenizers.Trimmed`, `Tokenizers.TrimIsLocal`).
- Joining the pieces of `splitString` always gives the text back; splitting undoes joining only
  when every piece ends at the first delimiter after it (`Tokenizers.PiecesOfJoin`), which for a
  delimiter of one byte means that no piece contains it (`Tokenizers.SplittableByOne`).

## Model

| member | source | states |
|---|---|---|
| Deadlines.PlaceExact | cooper/util/TimingWheel.cpp:68-86 | From any loop iteration on, chosen bucket plus nested wrappers add up to exactly the deadline asked for, less the clamped steps of the top wheel; the entry lands in an existing bucket of a wheel it fits in |
| Deadlines.StepIdentity | cooper/util/TimingWheel.cpp:77-85 | The wrapper's slot and the next delay together lose no tick of the current delay |
| Deadlines.ClampedIffBeyondHorizon | cooper/util/TimingWheel.cpp:80-83 | Whether the insertion loop clamps is decided by one bound on the delay, known before the call |
| Deadlines.InsertBetweenTicks | cooper/util/TimingWheel.cpp:64-87 | An insertion between ticks is dropped at counter + delay + 1 if and only if the delay is below the horizon, and otherwise earlier by the clamped whole top-wheel steps, never later |
| Deadlines.InsertDuringTick | cooper/util/TimingWheel.cpp:22-37 | An insertion made while wheel 0 is emptied is early by one turn of the wheel it lands in exactly when that wheel has still to turn on this tick |
| Deadlines.LandsInItsWheel | cooper/util/TimingWheel.cpp:69-86 | Which wheel an insertion ends in is decided by two bounds on the delay, known before the call |
| Deadlines.DuringTickIsExactIff | cooper/util/TimingWheel.cpp:22-37 | An insertion during a tick is exact if and only if the delay is below the horizon and not for a wheel that has still to turn on this tick; otherwise it loses exactly one turn of that wheel |
| Deadlines.LossDuringTick | cooper/util/TimingWheel.cpp:22-37 | For every counter, an insertion during a tick loses one turn of the wheel its delay is for at counter 0, exactly when that is not wheel 0 and turns on this tick |
| Deadlines.LevelGrows | cooper/util/TimingWheel.cpp:69-86 | A longer delay is for the same wheel or a higher one |
| Deadlines.ShortInsertDuringTickIsExact | cooper/util/TimingWheel.cpp:22-37 | Delays below the bucket count are exact even when a destructor inserts them during a tick |
| Deadlines.LongInsertDuringTickCanBeEarly | cooper/util/TimingWheel.cpp:22-37 | A concrete insertion during a tick that is dropped two ticks early |
| Deadlines.CapacityIsWithinHorizon | cooper/util/TimingWheel.cpp:10-16 | With two or more wheels every delay up to the capacity is exact; with one wheel exactly the delays below the bucket count |
| Deadlines.DeadlineIsInTheFuture | cooper/util/TimingWheel.cpp:64-87 | No insertion, between ticks or during one, is dropped at or before the current tick |
| Deadlines.PopTickNotPast | cooper/util/TimingWheel.cpp:25-37 | A bucket is never emptied before the current counter, and at it only if its wheel has still to turn |
| Calendars.EntryLifetime | cooper/util/TimingWheel.hpp:33-42 | Over every run an entry is alive exactly until the latest of its deadlines and is destroyed exactly once, at that tick |
| Schedules.ServerWheelsCover | cooper/net/TcpServer.cpp:84-85 | The wheel sizes that both servers pass make every timeout exact |
| Schedules.CoveredDeadline | cooper/util/TimingWheel.cpp:10-16 | Every delay within the sizing is due at counter + delay + 1 at any counter |
| Schedules.RefreshedIsLegal | cooper/net/TcpConnectionImpl.cpp:82-95 | An entry that is inserted again while it is alive is never resurrected, and its latest deadline is that of its latest insertion |
| Schedules.IdleEntryExpires | cooper/net/TcpConnectionImpl.cpp:82-95 | Whatever else is inserted, a refreshed entry is destroyed exactly once, idle + 1 ticks after its last insertion |
| WheelRuns.RunWheel | cooper/util/TimingWheel.cpp:5-87 | For every sequence of insertions and ticks, whatever new entries the destructors insert at each tick, the references on the wheel and everything its ticks destroyed are those of the calendar |
| WheelRuns.QuietRun | cooper/net/TcpConnectionImpl.hpp:30-46 | With entries whose destructors leave the wheel alone, the calendar of a run is that of its insertions and ticks |
| WheelRuns.RunSchedule | cooper/util/TimingWheel.cpp:5-87 | A wheel made for a timeout destroys, tick by tick, what the schedule of insertions says |
| TimingWheels.ChooseBucket | cooper/util/TimingWheel.cpp:67-86 | The insertion loop ends in the bucket, with the nesting, that the recursive placement describes |
| TimingWheels.WheelsNeeded | cooper/util/TimingWheel.cpp:10-16 | The fewest wheels whose capacity reaches the timeout |
| TimingWheels.NextTickRefs | cooper/util/TimingWheel.cpp:22-23 | Counting a tick before any wheel turns changes no deadline |
| TimingWheels.SkipRefs | cooper/util/TimingWheel.cpp:26 | A wheel whose turn it is not keeps every deadline |
| TimingWheels.RotateRefs | cooper/util/TimingWheel.cpp:27-34 | A turn of one wheel moves every other deadline by nothing and takes out exactly the references of its first bucket |
| TimingWheels.CascadeKeepsDeadline | cooper/util/TimingWheel.cpp:75-79 | A wrapper's destructor stores its payload one wheel lower with the deadline unchanged |
| TimingWheels.PlacedRefs | cooper/util/TimingWheel.cpp:64-87 | Storing a placed entry adds one reference with the computed deadline and nothing else |
| TimingWheels.DueIsWhatLeaves | cooper/util/TimingWheel.cpp:31-33 | The bucket that leaves wheel 0 holds exactly the references due at this tick |
| TimingWheels.TimingWheel.constructor | cooper/util/TimingWheel.cpp:5-20 | An empty wheel at counter 0 with the smallest sufficient number of wheels |
| TimingWheels.TimingWheel.InsertEntry | cooper/util/TimingWheel.cpp:50-62 | A zero delay or an empty pointer is ignored; otherwise exactly one reference with its deadline is added |
| TimingWheels.TimingWheel.InsertEntryInloop | cooper/util/TimingWheel.cpp:64-87 | Adds exactly one reference, due at the deadline of the delay at this counter and phase |
| TimingWheels.TimingWheel.DropReferences | cooper/util/TimingWheel.cpp:27-35 | In whatever order a bucket is destroyed, the entries destroyed are those that no other reference keeps alive, and their destructors' insertions are all that is added |
| TimingWheels.TimingWheel.Cascade | cooper/util/TimingWheel.cpp:75-79 | In whatever order a higher bucket is destroyed, its references move down with their deadlines |
| TimingWheels.TimingWheel.TurnWheel | cooper/util/TimingWheel.cpp:25-35 | Turning wheel 0 destroys exactly what expires; turning a higher wheel changes no deadline |
| TimingWheels.TimingWheel.Tick | cooper/util/TimingWheel.cpp:21-38 | One tick destroys exactly the entries whose last reference is due, drops exactly the due references, and adds only what destructors insert |
| TimingWheels.TimingWheel.Destroy | cooper/util/TimingWheel.cpp:41-48 | Clearing the wheels from the top down destroys every stored entry and leaves nothing behind |
| TimingWheels.TimingWheel.ClearWheel | cooper/util/TimingWheel.cpp:44-46 | Clearing one wheel leaves the higher ones untouched and every entry either dropped or in a lower wheel |
| MpscQueues.StepKeepsInv | cooper/util/LockFreeQueue.hpp:36-72 | Every atomic step of every thread keeps the queue well formed and touches only allocated nodes and live payloads |
| MpscQueues.RunIsSafe | cooper/util/LockFreeQueue.hpp:36-72 | Under every interleaving nothing freed is touched, nothing is leaked, and what is dequeued is a prefix of the head-exchange order |
| MpscQueues.OrderIsWhatWasSent | cooper/util/LockFreeQueue.hpp:36-45 | Over every run the exchanged values are, in the order of the exchanges, the arguments of the enqueue calls that the steps of the run show |
| MpscQueues.DequeuedWasSent | cooper/util/LockFreeQueue.hpp:36-66 | From an empty queue on, what is dequeued is a prefix of what was given to enqueue |
| MpscQueues.EnqueueAppends | cooper/util/LockFreeQueue.hpp:36-45 | A thread outside enqueue can always carry out a whole call at any free address: its argument comes last, and nothing is taken out and no other thread moved by it |
| MpscQueues.DequeueFailsIff | cooper/util/LockFreeQueue.hpp:54-72 | dequeue and empty see nothing exactly when everything was dequeued or the oldest pending producer has not stored its link |
| MpscQueues.TakeReturnsOldest | cooper/util/LockFreeQueue.hpp:61-62 | A dequeue that finds a node returns the oldest value not yet taken |
| MpscQueues.DequeueTakesOldest | cooper/util/LockFreeQueue.hpp:54-66 | A whole call of dequeue takes the oldest value and frees one node, or changes nothing |
| MpscQueues.Destroy | cooper/util/LockFreeQueue.hpp:22-28 | With no producer inside, the destructor takes every value and leaves no memory allocated |
| MpscQueues.OnlyHeadIsLeft | cooper/util/LockFreeQueue.hpp:26-27 | When everything is dequeued the head node is the only allocation left |
| EventLoops.StepKeepsInv | cooper/net/EventLoop.cpp:122-255 | Every step of the loop, of its callers and of quit keeps the wakeup invariant |
| EventLoops.TestEmptyKeepsInv | cooper/net/EventLoop.cpp:233-238 | If the last look at the queue before polling misses a function, its thread has still to link and to wake the loop |
| EventLoops.TestEmptyIff | cooper/net/EventLoop.cpp:233-238 | The loop leaves doRunInLoopFuncs if and only if everything queued was dequeued or the thread of the oldest function left has still to link it; otherwise it goes on to dequeue |
| EventLoops.NoLostWakeup | cooper/net/EventLoop.cpp:134-187 | In every reachable state with the loop in poll and the eventfd at 0, every queued function was called or a foreign thread is between its exchange and its eventfd write; the same for quit |
| EventLoops.CalledInOrder | cooper/net/EventLoop.cpp:221-240 | The functions called are a prefix of those given to queueInLoop, as the steps of the run show them, in the order of their head exchanges; before the loop polls again everything dequeued has been called |
| EventLoops.CounterIsWrites | cooper/net/EventLoop.cpp:241-254 | Over every run the eventfd holds the number of wakeups since it was last read, and a wakeup is handled only when there was one |
| EventLoops.WakeIsRead | cooper/net/EventLoop.cpp:140-143 | A reported wakeup is left only by reading the eventfd, which sets it to 0 |
| LoopProgress.WakeupLeadsToFuncs | cooper/net/EventLoop.cpp:134-148 | In poll a written eventfd is reported, read, and takes the loop to its functions |
| LoopProgress.LoopDrains | cooper/net/EventLoop.cpp:134-148 | From every state of a running loop with all exchanges linked, finitely many steps of the loop thread call everything queued, a function it is itself queueing included, and bring it back to the top; loop is called again only if it was about to return |
| LoopProgress.QueueInLoopAppends | cooper/net/EventLoop.cpp:176-187 | A whole call of queueInLoop puts its function last and raises the eventfd by one, except on the thread of the running loop |
| LoopProgress.QueuedIsCalled | cooper/net/EventLoop.cpp:176-240 | A function queued while the loop runs can be brought to its call by the loop thread alone, after everything queued before it |
| LoopProgress.WakeupFinishes | cooper/net/EventLoop.cpp:176-187 | A thread that has exchanged the head can always link its node and write its wakeup |
| LoopProgress.QuitWakes | cooper/net/EventLoop.cpp:91-97 | quit sets the flag, and from another thread raises the eventfd by one |
| EventLoops.QuitIsLatestRequest | cooper/net/EventLoop.cpp:91-126 | Over every run the flag is set exactly when quit has set it after loop last cleared it |
| EventLoops.LoopEndsIffAsked | cooper/net/EventLoop.cpp:126-134 | Whenever the loop evaluates the flag it ends if and only if quit has set it since loop cleared it |
| EventLoops.QuitBeforeLoopIsLost | cooper/net/EventLoop.cpp:91-126 | A run in which quit comes before loop and the loop goes on to poll |
| EventLoops.QuitWhileEnteringIsLost | cooper/net/EventLoop.cpp:125-126 | A run in which quit comes when looping_ is already set and the loop still goes on to poll |
| SendOrders.StepKeepsInv | cooper/net/TcpConnectionImpl.cpp:336-360 | Every step keeps the messages on the list and on the way equal to the order of the calls, and sendNum_ equal to the outstanding tasks |
| SendOrders.SendsKeepOrder | cooper/net/TcpConnectionImpl.cpp:578-626 | For every interleaving the messages of the calls, in the order in which these took the mutex, are what arrives and what is on the way; sendNum_ never underflows and counts the outstanding tasks, and nothing outstanding means everything arrived |
| SendOrders.DirectIff | cooper/net/TcpConnectionImpl.cpp:336-360 | A call goes straight to the connection exactly on the loop thread with no task outstanding; every other call is counted and queued |
| SendOrders.EverythingArrives | cooper/net/TcpConnectionImpl.cpp:336-360 | From every state that calls can lead to, the threads can finish so that every message has arrived, nothing is outstanding and the mutex is free |
| SendPaths.RunThreads | cooper/net/TcpConnectionImpl.cpp:96-626 | For every interleaving of sending threads, write callbacks and shutdowns with any non-error answers, wire followed by pending is the concatenation of the payloads in the order in which the calls took the mutex, complete once nothing is outstanding |
| TcpConnections.TcpConnection.ConnectEstablished | cooper/net/TcpConnectionImpl.cpp:198-207 | The connection becomes open with nothing pending a shutdown |
| TcpConnections.TcpConnection.SendInLoop | cooper/net/TcpConnectionImpl.cpp:286-334 | What the kernel does not take at once is queued behind everything accepted before; nothing is accepted when the connection is not open or the direct write fails |
| TcpConnections.TcpConnection.SendFileInLoop | cooper/net/TcpConnectionImpl.cpp:676-703 | One sendfile moves a prefix of the front file to the wire; a call that moves nothing leaves the channel as it was |
| TcpConnections.TcpConnection.PushFile | cooper/net/TcpConnectionImpl.cpp:578-626 | Exactly the bytes of the range, as far as the file has them, are accepted at the end of the stream; a first attempt starts the channel only if it moves some bytes |
| TcpConnections.TcpConnection.Progress | cooper/net/TcpConnectionImpl.cpp:107-188 | One callback offers the kernel exactly the next bytes of the stream, and stops the channel exactly when the list is empty; both asserts of the code hold |
| TcpConnections.TcpConnection.WriteCallback | cooper/net/TcpConnectionImpl.cpp:96-197 | Nothing is lost, duplicated or reordered; the callback that empties the list completes a deferred shutdown; an error takes nothing off the list and stops the channel only at a file |
| TcpConnections.TcpConnection.Shutdown | cooper/net/TcpConnectionImpl.cpp:251-275 | With pending nodes the shutdown is deferred; otherwise the write side is closed, and only with everything accepted on the wire |
| TcpConnections.TcpConnection.CloseWrite | cooper/net/TcpConnectionImpl.cpp:270-272 | Can be called only with an empty list and everything accepted on the wire |
| TcpConnections.TcpConnection.ForceClose | cooper/net/TcpConnectionImpl.cpp:277-285 | An open or half-closed connection becomes disconnected and stops writing; any other is unchanged |
| TcpConnections.BufferedPending | cooper/net/TcpConnectionImpl.cpp:314-323 | Buffering appends to the pending stream whether it extends the last data node or starts one after a file |
| TcpConnections.PendingShrinkFirst | cooper/net/TcpConnectionImpl.cpp:131-133 | What the kernel took from the front node and what is left are the pending stream |
| TcpConnections.FileAdvance | cooper/net/TcpConnectionImpl.cpp:681-697 | Moving offset and remaining length by the bytes sent leaves exactly the rest of the range |
| TcpConnections.OneCallback | cooper/net/TcpConnectionImpl.cpp:96-197 | No callback leaves more to do than before; with whole files and any room it leaves less, and a range that its file cannot fill stays at the front |
| TcpConnections.Drain | cooper/net/TcpConnectionImpl.cpp:96-197 | With whole files and any answers but errors, once the kernel has let bytes through often enough everything accepted is on the wire and a deferred shutdown has been carried out |
| TcpConnections.DrainAtOnce | cooper/net/TcpConnectionImpl.cpp:96-197 | With room for everything in the kernel, one callback more than there are nodes empties the list |
| TcpConnections.RunLoop | cooper/net/TcpConnectionImpl.cpp:96-334 | Over any sequence of sends, file sends, shutdowns and callbacks with any non-error results, wire followed by pending is the concatenation of the payloads; only a shutdown makes the connection ignore data |
| TcpConnections.DefaultLengthIsWholeIffNoOffset | cooper/net/TcpConnectionImpl.cpp:560-570 | The rest of the file fills the default length of sendFile if and only if the offset is 0 |
| TcpConnections.TruncatedFileNeverFinishes | cooper/net/TcpConnectionImpl.cpp:690-697 | What one attempt leaves of a range that its file cannot fill is again such a range |
| TcpConnections.StuckForGood | cooper/net/TcpConnectionImpl.cpp:96-197 | Such a range at the front stays there through any operations with any answers, errors included: the list never empties |
| TcpConnections.SendNamedFile | cooper/net/TcpConnectionImpl.cpp:551-571 | A file sent by name on an idle connection and followed by write callbacks drains, once they let bytes through often enough, if and only if the offset is 0 and the first attempt moves some bytes; otherwise no write callbacks ever empty the list |
| TcpConnections.Wait | cooper/net/TcpConnectionImpl.cpp:313-325 | A list that waits with the channel not writing goes on waiting through any operations and answers until the first non-empty data send on the open connection, which starts it |
| Bytes.FindInLonger | cooper/util/MsgBuffer.hpp:274-277 | More input does not move a first occurrence that was found |
| Bytes.FindAfter | cooper/util/MsgBuffer.hpp:274-277 | If no occurrence begins in the prefix, searching the rest finds the first occurrence of the whole |
| Bytes.Search | cooper/util/MsgBuffer.hpp:274-277 | The result is the first occurrence, and there is none exactly when nothing is returned |
| Bytes.NetworkRoundTrip | cooper/util/Funcs.hpp:8-19 | An integer written in network order reads back equal |
| Bytes.NetworkBytesOfValue | cooper/util/Funcs.hpp:8-19 | Any n bytes are written by exactly the integer they read as |
| Bytes.NetworkOrder | cooper/util/Funcs.hpp:8-19 | The most significant byte comes first |
| MsgBuffers.MoveWithin | cooper/util/MsgBuffer.cpp:176-178 | The bytes arrive intact even when source and target overlap |
| MsgBuffers.MsgBuffer.constructor | cooper/util/MsgBuffer.cpp:17-18 | An empty buffer with the reserved prefix of 8 bytes and the asked-for room |
| MsgBuffers.MsgBuffer.EnsureWritableBytes | cooper/util/MsgBuffer.cpp:20-39 | Room is made and the contents kept; bytes are moved only when there is space before them, the array grows only when the need exceeds it, at least doubles, and stays below twice the need plus 8 |
| MsgBuffers.MsgBuffer.Append | cooper/util/MsgBuffer.cpp:51-55 | Contents become contents followed by the new bytes, across compaction and growth |
| MsgBuffers.MsgBuffer.AddInFront | cooper/util/MsgBuffer.cpp:167-188 | Contents become the new bytes followed by the contents, in all three ways of making room; a new array is made exactly when neither gap suffices |
| MsgBuffers.MsgBuffer.RetrieveAll | cooper/util/MsgBuffer.cpp:105-110 | The buffer is empty and still well formed if and only if it was made for at least 8 bytes |
| MsgBuffers.MsgBuffer.Retrieve | cooper/util/MsgBuffer.cpp:98-104 | Drops exactly the first bytes, or all when asked for more; the buffer stays well formed unless one made for fewer than 8 bytes is emptied |
| MsgBuffers.MsgBuffer.Read | cooper/util/MsgBuffer.cpp:132-138 | What is returned followed by what remains is what was there, with the same exception |
| MsgBuffers.MsgBuffer.Unwrite | cooper/util/MsgBuffer.hpp:313-316 | Takes back exactly the last bytes |
| MsgBuffers.MsgBuffer.HasWritten | cooper/util/MsgBuffer.hpp:302-305 | Bytes written past the end become part of the contents |
| MsgBuffers.MsgBuffer.Find | cooper/util/MsgBuffer.hpp:274-277 | Finds the first occurrence within the readable bytes only; nothing is found exactly when there is none, or in an empty buffer |
| MsgBuffers.MsgBuffer.ReadFd | cooper/util/MsgBuffer.cpp:111-131 | Whatever the kernel delivers is appended in order across the 8192-byte spill; an error changes nothing |
| MsgBuffers.MsgBuffer.AppendInt | cooper/util/MsgBuffer.cpp:56-68 | Appends the integer's bytes in network order |
| MsgBuffers.MsgBuffer.AddInFrontInt | cooper/util/MsgBuffer.cpp:69-81 | Prepends the integer's bytes in network order |
| MsgBuffers.MsgBuffer.PeekInt | cooper/util/MsgBuffer.cpp:82-96 | The integer whose network bytes are the first n readable ones |
| MsgBuffers.MsgBuffer.ReadInt | cooper/util/MsgBuffer.cpp:151-166 | The contents were the bytes of the integer returned followed by what remains, with the same exception |
| MsgBuffers.RunBuffer | cooper/util/MsgBuffer.cpp:20-188 | Over every run of appends, prepends, retrievals, reads, unwrites and socket reads the buffer acts on its contents as on a plain sequence; one socket read takes all that is available or at least 8192 bytes |
| Multipart.ScanIsStable | cooper/net/Http.cpp:226-276 | Reading on never takes back emitted content and never changes a verdict |
| Multipart.ChunksDoNotMatter | cooper/net/Http.cpp:226-276 | Two runs over the same stream agree on verdict and content however it is cut |
| Multipart.ContentEndsAtDelimiter | cooper/net/Http.cpp:226-252 | The content is exactly the bytes before the first delimiter, and after any prefix of the stream never more than that |
| Multipart.HeldBack | cooper/net/Http.cpp:226-252 | Until the delimiter is there, content and bytes kept make up the stream and no more than the length of the delimiter is kept |
| Multipart.ConcatAppend | cooper/net/Http.cpp:130-140 | The stream is the chunks one after the other |
| Multipart.DecidedByTwoBytes | cooper/net/Http.cpp:253-276 | After the first delimiter 13, 10 announces another part, 45, 45 completes the form and anything else is malformed |
| Multipart.UndecidedIff | cooper/net/Http.cpp:226-276 | The parser asks for more exactly while there is no delimiter or fewer than two bytes after the first |
| Multipart.UnfoundIsPrefix | cooper/net/Http.cpp:240-250 | Keeping back the length of the delimiter after a failed scan emits no byte of a delimiter |
| Multipart.MultipartFormDataParser.constructor | cooper/net/Http.cpp:123-127 | The scan starts with nothing emitted and the delimiter made of line break, two hyphens and boundary |
| Multipart.MultipartFormDataParser.Parse | cooper/net/Http.cpp:226-276 | For any chunks the emitted content, the verdict and the bytes left are those of a search in the whole stream, and no chunk is read after the one that decides |
| Multipart.MultipartFormDataParser.ScanContent | cooper/net/Http.cpp:226-252 | One scan emits exactly what is safe; after a failed one at most the length of the delimiter is kept |
| Multipart.MultipartFormDataParser.AfterDelimiter | cooper/net/Http.cpp:253-276 | Decides by the two bytes after the delimiter whether another part follows, the form is complete or malformed |
| TimerQueues.LiveIffNotCancelled | cooper/net/TimerQueue.cpp:60-64 | A timer stays live through a batch unless a timer called before has cancelled it |
| TimerQueues.ActionsMeaning | cooper/net/TimerQueue.cpp:107-138 | What callbacks do adds exactly one timer for each timer they add, with the time and interval asked for and the next number, removes none, and leaves live exactly what was live or added and not cancelled since |
| TimerQueues.NumberedGrows | cooper/net/Timer.cpp:8-13 | Every added timer gets a larger id than all before it |
| TimerQueues.BatchMeaning | cooper/net/TimerQueue.cpp:52-70 | After a batch the queue holds exactly what was not due, the timers that the called callbacks added, and the repeating timers of the batch that were live and not cancelled, one interval from now |
| TimerQueues.CalledIff | cooper/net/TimerQueue.cpp:60-64 | A due timer is called if and only if it was live and no earlier callback of the batch cancelled it |
| TimerQueues.CalledOnce | cooper/net/TimerQueue.cpp:60-64 | No timer is called twice in a batch |
| TimerQueues.CalledInOrder | cooper/net/TimerQueue.cpp:60-64 | Of two timers called in a batch the one called first is due no later |
| TimerQueues.CancelledIsForever | cooper/net/TimerQueue.cpp:134-138 | A batch neither calls nor revives a cancelled or finished timer, whatever its callbacks do |
| TimerQueues.DeadOverRuns | cooper/net/TimerQueue.cpp:52-138 | Over every run of additions, cancellations and batches a cancelled or finished timer is never called and never live again, and every live id keeps exactly one queued timer |
| TimerQueues.SettleMeaning | cooper/net/TimerQueue.cpp:163-175 | After a batch exactly the live repeating timers are queued for now + interval and exactly the one-shots of the batch are finished |
| TimerQueues.SettleKeeps | cooper/net/TimerQueue.cpp:163-175 | After a batch every live id has exactly one queued timer again |
| TimerQueues.BatchKeepsHistory | cooper/net/TimerQueue.cpp:52-70 | Over a batch no finished one-shot runs again |
| TimerQueues.TimerQueue.Insert | cooper/net/TimerQueue.cpp:140-150 | Reports whether the new timer is earlier than every queued one |
| TimerQueues.TimerQueue.AddTimer | cooper/net/TimerQueue.cpp:125-132 | Exactly one timer with a fresh id and the time and interval asked for is queued and live, the timerfd stands at the earliest time and the invariant is kept |
| TimerQueues.TimerQueue.InvalidateTimer | cooper/net/TimerQueue.cpp:134-138 | Exactly this id stops being live |
| TimerQueues.TimerQueue.GetExpired | cooper/net/TimerQueue.cpp:152-162 | Takes out exactly the timers before now, earliest first |
| TimerQueues.TimerQueue.HandleRead | cooper/net/TimerQueue.cpp:52-70 | The due timers are run in time order as the callbacks leave them live, and afterwards the queue, the ids, the timerfd and the one-shot history are again consistent, whatever the callbacks add or cancel |
| TimerQueues.TimerQueue.Reset | cooper/net/TimerQueue.cpp:163-180 | Puts the batch back as described and arms the timerfd at the earliest queued time |
| Heartbeats.PingsAreRegular | cooper/net/AppTcpServer.hpp:104-120 | Over every run the first PING goes out interval + 1 ticks after the start and each later one when the one before it re-armed it, with no gap while the connection is live |
| Heartbeats.ShortIntervalIsSteady | cooper/net/AppTcpServer.cpp:72-73 | Below 500 every PING comes interval + 1 ticks after the last and waits timeout + 1 ticks |
| Heartbeats.SteadyPings | cooper/net/AppTcpServer.hpp:104-120 | The k-th PING of such a run goes out at exactly start + k(interval + 1) |
| Heartbeats.LongIntervalIsOrdered | cooper/net/AppTcpServer.cpp:72-73 | From 500 to 10000 the delays from 100 on are 100 ticks early exactly at multiples of 100, and a PING is still given up before the next one |
| Heartbeats.OrderedIffKickoffFirst | cooper/net/AppTcpServer.hpp:104-120 | For any covered interval and shorter timeout, every kickoff comes before the next PING if and only if a bound on the two delays and the wheel sizes holds |
| Heartbeats.UnorderedIsReached | cooper/net/AppTcpServer.hpp:104-120 | Whenever the bound fails there is a connection whose second PING is due no later than its first is given up |
| Heartbeats.VeryLongIntervalIsNotOrdered | cooper/net/AppTcpServer.cpp:72-73 | A connection whose first PING is at 20000 and second at 20101, while the first would be given up at 30000 |
| Heartbeats.KickoffBelongsToLastPing | cooper/net/AppTcpServer.hpp:108-119 | Over every run an armed kickoff is that of the last PING and comes before the next one, and a lost connection has neither armed |
| Heartbeats.ArmedIffUnanswered | cooper/net/AppTcpServer.cpp:112-121 | Until its deadline the last PING has an armed kickoff exactly while neither a PONG nor a close came after it |
| Heartbeats.GivesUpIffUnanswered | cooper/net/AppTcpServer.hpp:104-145 | Over every run the connection is given up at the deadline of a PING exactly when no PONG was handled since that PING and it was not closed otherwise |
| Heartbeats.GivesUpAtALimit | cooper/net/AppTcpServer.hpp:138-143 | Over every run the heartbeat gives up at no other time than the deadline of a PING |
| Heartbeats.StatusIff | cooper/net/TcpConnectionImpl.cpp:251-285 | Over every run the connection is live exactly as long as it was not half-closed, closed or given up, and lost exactly by a close or by being given up |
| Heartbeats.PingGoesOutIff | cooper/net/AppTcpServer.hpp:104-120 | Over every run the k-th PING goes out, at its tick, exactly when that tick has come and no half-close, close or giving up came before it |
| Heartbeats.WheelTurned | cooper/net/AppTcpServer.hpp:104-120 | A tick destroys each heartbeat entry exactly when it is due, and what a live heartbeat re-arms is on the wheel once, due when the wheel makes it due |
| Heartbeats.Heartbeat.constructor | cooper/net/AppTcpServer.cpp:36-42 | A new connection's first PING is due interval + 1 ticks on |
| Heartbeats.Heartbeat.HandlePong | cooper/net/AppTcpServer.cpp:112-121 | A PONG disarms the kickoff and nothing else |
| Heartbeats.Heartbeat.Shutdown | cooper/net/TcpConnectionImpl.cpp:251-275 | A live connection becomes half-closed and every heartbeat entry stays as it is |
| Heartbeats.Heartbeat.Close | cooper/net/AppTcpServer.cpp:44-62 | A lost connection leaves no entry on the wheel that can reach it |
| Heartbeats.Heartbeat.InsertOther | cooper/net/AppTcpServer.cpp:72-73 | Other users of the wheel do not affect the heartbeat |
| Heartbeats.Heartbeat.Tick | cooper/net/AppTcpServer.hpp:104-145 | A tick of the wheel with these destructors is a tick of the abstract heartbeat, and at most one kickoff and one ping entry stay armed |
| Heartbeats.RunHeartbeat | cooper/net/AppTcpServer.cpp:32-121 | For any sequence of ticks, PONGs and closes the connection on the real wheel ends in the state of the abstract run |
| Heartbeats.Heartbeat.DestroyPingPong | cooper/net/AppTcpServer.hpp:104-120 | A live connection is sent a PING and gets a new kickoff and a new ping entry; otherwise the heartbeat ends |
| Heartbeats.Heartbeat.DestroyKickoff | cooper/net/AppTcpServer.hpp:138-143 | The connection is closed and the heartbeat's entries are disarmed |
| Numerals.NumeralRoundTrip | cooper/util/LogStream.cpp:23-56 | A numeral in base 10 or 16 reads back as its value and has no superfluous zero |
| Numerals.NumeralOfValue | cooper/util/LogStream.cpp:23-56 | Every text of digits without a superfluous zero is the numeral of its value |
| Numerals.NumeralFits | cooper/util/LogStream.cpp:80 | A numeral has at most k digits exactly when the value is below base^k |
| Numerals.DecimalRoundTrip | cooper/util/LogStream.cpp:23-40 | The text of any integer, the minimum included, parses back to it |
| Numerals.DecimalFits | cooper/util/LogStream.cpp:80-82 | For each integer type sign, digits and NUL fit in digits10 + 4 bytes |
| Numerals.PointerFits | cooper/util/LogStream.cpp:138-140 | A pointer's text and NUL fit in its room |
| Numerals.TruncatedDigit | cooper/util/LogStream.cpp:28-30 | With division toward zero the symmetric table yields the right digit for either sign |
| Numerals.HexDigit | cooper/util/LogStream.cpp:19 | The hexadecimal table holds the digits and the capital letters A to F |
| LogStreams.ReverseRange | cooper/util/LogStream.cpp:37 | Reverses the range in place and nothing else |
| LogStreams.WriteDigits | cooper/util/LogStream.cpp:27-31 | The digits of the magnitude in reverse, for either sign |
| LogStreams.Convert | cooper/util/LogStream.cpp:23-40 | Writes the decimal text and a NUL at the given place, touches nothing else and returns the length |
| LogStreams.ConvertHex | cooper/util/LogStream.cpp:42-56 | The same for hexadecimal |
| LogStreams.FixedBuffer.Append | cooper/util/LogStream.hpp:26-33 | Takes all of the bytes or none, and always keeps one byte free |
| LogStreams.LogStream.Append | cooper/util/LogStream.hpp:154-163 | The visible text grows by exactly the text given, across the spill, which comes exactly when the text does not fit in 4000 bytes with one to spare |
| LogStreams.LogStream.FormatInteger | cooper/util/LogStream.cpp:78-94 | The visible text grows by exactly the decimal text, for every value of every type |
| LogStreams.LogStream.FormatPointer | cooper/util/LogStream.cpp:136-159 | The visible text grows by 0x and the hexadecimal text |
| LogStreams.LogStream.ResetBuffer | cooper/util/LogStream.hpp:178-181 | Nothing is visible any more |
| LogStreams.LogStream.WriteAll | cooper/util/LogStream.hpp:154-176 | For any sequence of insertions the visible text is the concatenation of the renderings, wherever the buffer overflows |
| Tokenizers.JoinOfPieces | cooper/util/Funcs.hpp:20-35 | Joining the pieces with the delimiter gives the text back |
| Tokenizers.PiecesAreDelimited | cooper/util/Funcs.hpp:20-35 | No piece contains the delimiter |
| Tokenizers.PiecesOfJoin | cooper/util/Funcs.hpp:20-35 | Splitting undoes joining if and only if every piece ends at the first delimiter after it |
| Tokenizers.SplittableByOne | cooper/util/Funcs.hpp:20-35 | For a delimiter of one byte that means that no piece contains it |
| Tokenizers.NonEmptyFilters | cooper/util/Funcs.hpp:20-35 | Without empty pieces exactly the non-empty ones are kept, in order |
| Tokenizers.SplitString | cooper/util/Funcs.hpp:20-35 | The loop returns all pieces, or the non-empty ones in order; nothing for an empty delimiter |
| Tokenizers.Trim | cooper/util/Utilities.cpp:191-199 | Both scans stop at the first byte that is neither space nor tab, even past the segment |
| Tokenizers.TrimIsLocal | cooper/util/Utilities.cpp:191-199 | Although the scans may leave the segment, what remains is exactly the trimmed segment, and something remains exactly when that is not empty |
| Tokenizers.TrimMeaning | cooper/util/Utilities.cpp:187-199 | Trimming takes exactly the bytes 32 and 9 off the ends, the left end only if the end of the text was given; a field remains exactly when something else is there |
| Tokenizers.FieldsAppend | cooper/util/Utilities.cpp:201-222 | Every segment yields its own field or none, in order |
| Tokenizers.Split | cooper/util/Utilities.cpp:201-222 | Hands on exactly the non-empty trimmed segments, in order, for any delimiter |
| Tokenizers.DepthCounts | cooper/util/Utilities.cpp:242-250 | The level is the number of components less those that are . and twice those that are .. |
| Tokenizers.BelowIff | cooper/util/Utilities.cpp:242-250 | A prefix leads above the start exactly when the components . counted once and .. counted twice outnumber its components |
| Tokenizers.ComponentsOfJoin | cooper/util/Utilities.cpp:227-255 | Components are what slashes separate: joining and splitting gives them back if and only if none is empty or holds a slash |
| Tokenizers.IsValidPath | cooper/util/Utilities.cpp:223-259 | A path is valid if and only if none of its prefixes leads above the start |

## Left out

- TLS and stream callbacks: the TLS and stream branches of the send path, which depend on a foreign library.
- Sockets, epoll, eventfd, timerfd, files and clocks: their answers are arguments of the methods that use them.
- Weak memory orders: the atomic operations interleave with sequential consistency.
- Tick length: one tick is one interval of the wheel, which both servers set to 1.0; other float intervals and the wall clock are not modelled.
- TimingWheels.ChooseBucket: the source adds one to the delay in `float`, which rounds delays from 2^24 on; exactness holds below that.
- Machine integers: `size_t` and the tick counter are unbounded, so the overflow of `pow`, of the counter and of timer ids is not modelled.
- Bucket entries are values: two wrappers with the same content count as one, where the source keeps two pointers; the references they stand for are the same.
- Entry destructors are functions from an entry to the insertions it makes, so a destructor that reads the wheel is not modelled; they insert new entries, as PingPongEntry does.
- Insertions from other threads: `insertEntry` and `addTimer` are modelled from the point at which they run on the loop thread.
- TimingWheels.TimingWheel.InsertEntry: the hop of a foreign thread through the function queue is not part of it.
- TimingWheels.TimingWheel.Tick: requires that destructors insert only entries that are not on the wheel already.
- TimingWheels.TimingWheel.TurnWheel: makes the same demand of destructors.
- TimingWheels.TimingWheel.DropReferences: makes the same demand of destructors.
- SendOrders.SendsKeepOrder: a high-water-mark callback that sends from inside a send task is excluded.
- TcpConnections.TcpConnection.ConnectEstablished: enabling reading and the connection callback are left out.
- TcpConnections.TcpConnection.ForceClose: the connection and close callbacks are left out; Heartbeats models what the former does there.
- TcpConnections.TcpConnection.SendInLoop: high-water-mark callbacks are left out, and so is the refresh of the idle entry, which Schedules models.
- TcpConnections.TcpConnection.WriteCallback: the write-complete callback is assumed not to send.
- TcpConnections.RunLoop: conservation is stated for results other than errors, because the code drops data on an error.
- The buffers inside write nodes and in the multipart parser are byte sequences; MsgBuffers shows that the array behaves like one.
- SendOrders models the mutex, the counter and the function queue; what a send does to the write list is in TcpConnections.
- Exceptions thrown by functions in the loop, `funcsOnQuit_` and moving a loop to another thread.
- LoopProgress.LoopDrains: the loop thread can get there by its own steps; no fairness of scheduling is assumed, so that it does get there is not stated.
- SendOrders.EverythingArrives: says the same of the sending threads.
- EventLoops.NoLostWakeup: for `quit` it covers calls made while the loop runs; LoopEndsIffAsked says which calls those are.
- Multipart states 0 to 2 (the first boundary and the header lines) and the end of input, on which the parser spins.
- Moved-from buffers are not modelled.
- MsgBuffers.MsgBuffer.AddInFront: the move is overlap-safe, while the source calls `std::copy` with its destination inside the source range, for which the C++ standard promises nothing.
- MsgBuffer's peekInt8, readUntil, retrieveUntil and findCRLF, which add only easy variants.
- TimerQueues.TimerQueue.AddTimer: the timer is queued at once, as on the loop thread; the minimum of 100 microseconds when the timerfd is armed is not modelled.
- Heartbeats.Heartbeat.constructor: one connection on one loop, with 1 <= timeout < interval and the bound that makes kickoffs come before the next PING; without it an older kickoff stays armed that no PONG can reach; cross-thread access to the maps of the server is not modelled.
- Floating-point output of LogStream (`snprintf`) and the growth of its string, which is a sequence; numbers reach it through a scratch array.
- Connector, TcpClient, Acceptor, InetAddress, Date, Logger, HTTP routing, content types, JSON handlers and packet framing.
