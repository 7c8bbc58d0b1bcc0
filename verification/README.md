# RODOS kernel and support library in Dafny

A model of the small, stateful parts of the RODOS real-time kernel and its support library, and
proofs of what they promise. Code that updates objects in place is modelled by classes whose methods
are proved against sequences, queues or counts; code that several threads enter at once is modelled by
machines of atomic steps, and its theorems speak of every interleaving.

| file | component |
|---|---|
| `Common.dfy` | options, minima, sequences without duplicates, and other things several components use |
| `Rings.dfy` | a ring of cells between a read and a write index, shared by the fifos |
| `ByteStreamRingBuffer.dfy` | variable-length messages in a ring of words that drops the oldest ones |
| `Semaphore.dfy`, `Inheritance.dfy`, `HandOver.dfy` | re-entrant semaphore with hand-over and priority raising, as a step machine; when it keeps priority inheritance in every run; the machine under a scheduler, and who is picked at one hand-over after the other |
| `CommBuffer.dfy` | triple buffer, as a step machine |
| `Fifo.dfy`, `SyncFifo.dfy` | plain and block fifo, and the plain and blocking fifo between two threads as a step machine |
| `MultipleReaderFifo.dfy`, `MultipleReaderRace.dfy` | the fifo with several readers, and its use by the writer and a reader at once as a step machine |
| `Scheduler.dfy`, `RoundRobin.dfy`, `Lateness.dfy`, `TickTimer.dfy` | thread selection, scheduling steps, what they guarantee over many steps, the system tick |
| `TimeEvent.dfy`, `PeriodicThread.dfy`, `TimeModel.dfy` | time events, threads with a beat, beats and the CUC time format |
| `SortedList.dfy`, `SortedListWorld.dfy` | intrusive sorted lists, and several of them over one stock of entries |
| `AllocableObjects.dfy` | reference-counted pool and its handles |
| `S3pCode.dfy`, `S3pSender.dfy`, `S3pReceiver.dfy`, `S3pRoundTrip.dfy` | S3P message framing: two encoders, two decoders |
| `Crc.dfy`, `CrcRemainder.dfy` | the 16-bit CRC, bit by bit and by table; the checksum as the remainder of a polynomial division |

`dafny verify dfyconfig.toml` checks all of it.

## What the proofs found

Where the code and its documentation, or the obvious expectation, disagree, the model follows the code
and a lemma, or the contract of the method, says exactly when the expectation is met.

- `ByteStreamRingBuffer::write` accepts a payload of exactly `WORDS-1` words, and the ring is empty
  afterwards. A message is in the queue after its write if and only if its payload is at most
  `WORDS-2` words (`WriteStoresIffItFits`).
- The same file says that transfers are never longer than `maxLen`. A read transfers more, after some
  history, if and only if `maxLen` is positive, not a multiple of 4, and a message of that length fits
  into the ring (`ReadOverrunsIff`). A negative length is written as a header without a message.
- `CommBuffer`: every cell a `get` copies is one of the put that stored that cell last when it was copied,
  and the result is the value that was current when the pointer was loaded if and only if those
  cells equal its cells (`GetDelivers`). So a third put may begin, and even store behind the reader;
  once it overtakes the reader it can tear the value before it publishes anything (`OvertakenIff`,
  `ThirdPutTears`).
- `SyncFifo` is documented to wait until there is room or data when no timeout, or timeout 0, is given. With
  timeout 0 it returns at once (`SleepsIff`). Without a timeout a `syncPut` that finds the fifo full can
  return false, nobody but the reader resuming it, if and only if the reader has not yet done the
  resume that ends an earlier get (`PutRetryRefusedIff`); `PutRefusedWithoutTimeout` is a run that comes
  to such a moment. `GetRetryRefusedIff` and `GetRefusedWithoutTimeout` say the same of `syncGet`.
- `MultipleReaderFifo`: a put may push a reader ahead in the middle of its get. No element is both
  delivered and counted as lost if and only if no push changes the reader's index while a get is
  using it (`LostOrDeliveredIff`; `OverlapLosesCount` is a run in which one does). Without such an
  overlap a reader can still deliver, by itself, what was never put. Outside a get it can if and only if
  a push has put it ahead of the writer and the two indices differ; past its emptiness test, if and only
  if a push has made it catch up with the writer, and if it has copied its cell already, the next
  index also differs from the writer's; `GoesAstrayIff` states it for every place in a get. `LatePush` is
  a run in which the push comes after the reader has emptied the fifo, `PushAfterTest` one in which it
  comes between the test and the load of the index. The test itself loads two indices at two
  moments and says empty if and only if they are a multiple of the length apart (`TestSaysEmptyIff`);
  with a put in between a full fifo can look empty (`FullLooksEmpty`).
- Priority inheritance holds at every moment of a run if and only if no thread wakes up in `enter` below
  the priority of somebody who sleeps on, or sleeps on above the owner's (`InheritsIff`). Told
  beforehand: it holds in every run if and only if all threads that may have to wait for the semaphore have
  the same priority and, where others resume them too, no thread's is lower
  (`InheritsInEveryRunIff`, which also has the case of two threads only). Otherwise there is a run in which
  two of them wait and the lower one comes first (`LowWakesBeforeHigh`), or a resumed one sleeps on
  above the owner (`SleepsOnAboveOwner`).
- `Semaphore::enter` records the caller's current priority again on re-entry. A thread gets its own
  priority back if and only if its last `enter`, nested or not, found it at that priority
  (`RestoredIffSampled`); `ReentryKeepsRaisedPriority` is a run that leaves
  a thread outside with a raised priority.
- `SortedList::appendForce` is documented to use the last key plus one; it uses the last key. With a
  negative key, `insert` into an otherwise empty list stores 0, the sentinel's key.
- `AllocableObjects::indexOf` accepts the item one behind the end, and `free` and `copyReference` then read and
  write their counters outside the array. For every other item they use the counter at its distance from the buffer's start,
  modulo 2^32, or refuse it.
- `ECSSTimeToLocalTime` has a 16-bit fraction by default although `splitTimeECSS` produces 32 bits:
  with the default the two fit together for whole seconds only
  (`DefaultFractSizeNeedsWholeSeconds`). With 32 bits, exactly the times whose sub-second part is a
  multiple of 1 953 125 ns survive unchanged, all others lose one nanosecond (`SplitThenJoin`).
- The two S3P decoders agree after every byte of a stream if and only if it has no two marks in a row
  (`DecodersAgreeIff`); after the first such pair there are always bytes that may follow for which
  they deliver different messages (`MarkPairSeparates`).
- A periodic time event is armed again after it has been handled if and only if its start is not
  negative and its period is positive and smaller than what is left until the end of time
  (`ArmedAgainIff`, for passes whose time plus such a period stays below it); with any other arguments it is handled at most once in any run (`HandledOnce`).

## Model

| member | source | states |
|---|---|---|
| ByteStreamRingBuffer.ByteStreamRingBuffer.Write | rodos/support/support-libs/bytestreamringbuffer.h:57-65 | the ring holds, message for message and word for word, what the abstract queue holds after this write: rejected, ignored or stored behind what is left; a negative length leaves a bare header behind the messages |
| ByteStreamRingBuffer.ByteStreamRingBuffer.WriteWord | rodos/support/support-libs/bytestreamringbuffer.h:34-38 | one word appended; when the ring gets full exactly the front message disappears, header and payload, also if it is the one being written |
| ByteStreamRingBuffer.ByteStreamRingBuffer.Read | rodos/support/support-libs/bytestreamringbuffer.h:73-85 | the oldest message word for word and nothing else of the destination touched; a too long one alone is discarded with -1; 0 exactly when the queue is empty |
| ByteStreamRingBuffer.ByteStreamRingBuffer.ReadWord | rodos/support/support-libs/bytestreamringbuffer.h:40-44 | takes the first word of what the ring holds |
| ByteStreamRingBuffer.ByteStreamRingBuffer.Reset | rodos/support/support-libs/bytestreamringbuffer.h:50 | empties the queue |
| ByteStreamRingBuffer.EmptyIffIndicesEqual | rodos/support/support-libs/bytestreamringbuffer.h:49 | equal indices mean an empty queue and nothing else |
| ByteStreamRingBuffer.DropIsMinimal | rodos/support/support-libs/bytestreamringbuffer.h:34-38 | the messages that go when room is needed are the shortest prefix of whole messages whose removal leaves it, and no shorter one would do |
| ByteStreamRingBuffer.WriteDropsOnlyWhatItMust | rodos/support/support-libs/bytestreamringbuffer.h:57-65 | after a write of a message that fits, the queue is a suffix of what it was and the message behind it; the suffix is the longest that fits beside the message |
| ByteStreamRingBuffer.RejectedIff | rodos/support/support-libs/bytestreamringbuffer.h:57-59 | a write returns false if and only if its length is more than the ring has words less one; then, or with length 0, nothing changes |
| ByteStreamRingBuffer.ReadTakesOne | rodos/support/support-libs/bytestreamringbuffer.h:73-84 | a read takes exactly the oldest message, delivers it if and only if it is not longer than maxLen, and does nothing when there is none |
| ByteStreamRingBuffer.LosslessIff | rodos/support/support-libs/bytestreamringbuffer.h:34-85 | over every run, what was delivered and is still held is everything accepted, in order, if and only if each write fitted beside what was held, no read found a too long message and no reset found any |
| ByteStreamRingBuffer.RunIsFifo | rodos/support/support-libs/bytestreamringbuffer.h:34-85 | over every run of writes, reads and resets the queue is a suffix of the accepted messages and what was delivered comes from in front of it, in order, whole, never twice |
| ByteStreamRingBuffer.ReadOverrunsIff | rodos/support/support-libs/bytestreamringbuffer.h:73-84 | some history makes a read transfer more than maxLen bytes if and only if maxLen is positive, no multiple of 4, and a message of that length fits |
| ByteStreamRingBuffer.WriteStoresIffItFits | rodos/support/support-libs/bytestreamringbuffer.h:58-63 | an accepted message is last in the queue if and only if its payload leaves a word free beside the header; otherwise the queue is empty |
| Semaphore.InvAfter | rodos/src/bare-metal-generic/rodos-semaphore.cpp:44-117 | every run of steps by any threads keeps the invariant tying owner, counter, nesting depth and sleepers together |
| Semaphore.MutualExclusion | rodos/src/bare-metal-generic/rodos-semaphore.cpp:44-83 | in every interleaving at most one thread is inside, it is the owner, and the counter is its nesting depth, or 0 when nobody is inside |
| Semaphore.LeaveByOutsider | rodos/src/bare-metal-generic/rodos-semaphore.cpp:76-78 | a leave by a thread that is not inside changes nothing |
| Semaphore.NoWaiterLost | rodos/src/bare-metal-generic/rodos-semaphore.cpp:51-60 | without an owner nobody sleeps in enter; an owner is never asleep and has a step to take |
| Semaphore.CeilingAfter | rodos/src/bare-metal-generic/rodos-semaphore.cpp:48-58 | over every run, whoever sleeps in enter is at the ceiling priority |
| Semaphore.LeaveHandsOver | rodos/src/bare-metal-generic/rodos-semaphore.cpp:86-97 | the thread findNextWaitingFor finds is one the machine may choose, it finds one if and only if somebody sleeps, and that one becomes the owner and is resumed |
| Semaphore.NoBarging | rodos/src/bare-metal-generic/rodos-semaphore.cpp:93-96 | between hand-over and wake-up no step of anybody takes the semaphore away, and the new owner's next step brings it inside with counter 1 |
| HandOvers.PickedInTurn | rodos/src/bare-metal-generic/thread_on_hw.cpp:394-414 | over every run of the semaphore under a scheduler that stamps the thread it activates, a thread that sleeps on sees at most as many hand-overs to others as sleepers were last activated no later than it, however many fall asleep after it |
| HandOvers.InvAfter | rodos/src/bare-metal-generic/scheduler.cpp:95-120 | over every run the running thread was activated after every thread that sleeps |
| HandOvers.PickIsOldest | rodos/src/bare-metal-generic/thread_on_hw.cpp:394-414 | in every reachable state the thread findNextWaitingFor finds in its list is the sleeper with the oldest stamp, the one this machine hands over to |
| HandOvers.IsSemaphoreRun | rodos/src/bare-metal-generic/rodos-semaphore.cpp:44-117 | the semaphore's part of a run under the scheduler is a run of the semaphore's machine, so all its theorems hold there too |
| Inheritance.InheritsInEveryRunIff | rodos/src/bare-metal-generic/rodos-semaphore.cpp:44-102 | for any set of threads that may wait, inheritance holds at every moment of every run if and only if their priorities are equal and, with foreign resumes, nobody's is lower; two threads alone, handing over promptly and not resumed by others, always keep it |
| Inheritance.LowWakesBeforeHigh | rodos/src/bare-metal-generic/rodos-semaphore.cpp:48-60 | for any two waiters of different priorities and a third thread, a run that loses inheritance: the lower one is handed the semaphore and wakes up at its own priority while the other sleeps |
| Inheritance.SleepsOnAboveOwner | rodos/src/bare-metal-generic/rodos-semaphore.cpp:53-58 | a run that loses it after a foreign resume: the waiter sleeps on without raising the owner again |
| Semaphore.PriorityRestored | rodos/src/bare-metal-generic/rodos-semaphore.cpp:62-102 | without re-entry a thread outside has exactly its own priority, an owner at least its own |
| Semaphore.PriorityAfter | rodos/api/thread.h:364-378 | the priority saved by a ceiling scope or in the semaphore is the thread's own after every run without re-entry |
| Semaphore.OthersOnlyRaise | rodos/src/bare-metal-generic/rodos-semaphore.cpp:53-56 | steps of other threads never lower an owner's priority nor take ownership, and a waiting caller lifts it to its own |
| Semaphore.InheritsIff | rodos/src/bare-metal-generic/rodos-semaphore.cpp:53-60 | over every run, the running owner has at least the priority of every sleeper at every moment if and only if no wake-up loses it |
| Semaphore.RestoredIffSampled | rodos/src/bare-metal-generic/rodos-semaphore.cpp:61-63 | in any run, re-entrant or not, a leaving thread gets its own priority back if and only if its last enter found it at that priority |
| Semaphore.OwnerPriorityTells | rodos/src/bare-metal-generic/rodos-semaphore.cpp:88-116 | over every run the recorded priority is 0 when the semaphore is free or its new owner has not run yet, and otherwise what the owner's last enter found |
| Semaphore.ReentryKeepsRaisedPriority | rodos/src/bare-metal-generic/rodos-semaphore.cpp:62 | a run that leaves a thread that re-entered outside with a raised priority |
| CommBuffer.InvAfter | rodos/api/commbuffer.h:84-122 | every run of steps by writer and reader keeps slots, contents, read slot and flag consistent |
| CommBuffer.SlotsStayApart | rodos/api/commbuffer.h:84-100 | between puts the three pointers name the three slots; the reader's pointer always stands at the whole last published value |
| CommBuffer.GetDelivers | rodos/api/commbuffer.h:84-122 | over every run, cell by cell, from which put a get's result is; it is the value current when the pointer was loaded if and only if those puts agree with it in those cells |
| CommBuffer.OvertakenIff | rodos/api/commbuffer.h:84-97 | a cell copied is that of a later put if and only if the writer has overtaken the reader: three publications, or two and a third put that has stored the cell |
| CommBuffer.CurrentIffNeverOvertaken | rodos/api/commbuffer.h:84-122 | over the whole of a get, all cells copied are the current value's if and only if the writer never overtook the reader |
| CommBuffer.GetIsConsistent | rodos/api/commbuffer.h:115-122 | a get the writer never overtakes delivers, untorn, the value current when the pointer was loaded, even if a third put has begun |
| CommBuffer.WritesIntoReadSlotIff | rodos/api/commbuffer.h:92-97 | the writer stores into the slot being read if and only if two publications, modulo three, happened since the pointer was loaded |
| CommBuffer.NothingNewMeansRead | rodos/api/commbuffer.h:130-136 | both sides idle, a reset flag means that the last published value is what the last get delivered |
| CommBuffer.NewDataIff | rodos/api/commbuffer.h:116-136 | over every run, the flag is set, and getOnlyIfNewData goes on to get, if and only if some put has been completed since the last get began; otherwise it changes nothing |
| CommBuffer.PublishesArguments | rodos/api/commbuffer.h:84-97 | over every run, the values published are what the callers of put passed, in order |
| CommBuffer.RotatesIff | rodos/api/commbuffer.h:92-97 | a put takes the spare slot if and only if a get is between setting and resetting readingNow |
| CommBuffer.ThirdPutTears | rodos/api/commbuffer.h:84-97 | a run with two publications in which a third put that has not published makes the get deliver a value never put |
| Fifos.Fifo.Put | rodos/api/fifo.h:72-82 | appends, or refuses exactly when len-1 elements are stored, counting the error |
| Fifos.Fifo.Get | rodos/api/fifo.h:89-97 | takes the first element, or refuses exactly when there is none, the output untouched |
| Fifos.Fifo.GetElementCount | rodos/api/fifo.h:110-114 | the number of elements, around the wrap |
| Fifos.Fifo.GetFreeSpaceCount | rodos/api/fifo.h:121-123 | free and used cells add up to len-1 |
| Fifos.Fifo.GetBufferToWrite | rodos/api/fifo.h:359-376 | the block offered is as large as the free cells allow before the end of the array, none when full |
| Fifos.Fifo.StoreInBlock | rodos/api/fifo.h:375 | storing within the block changes nothing of the contents |
| Fifos.Fifo.WriteConcluded | rodos/api/fifo.h:379-381 | what stands in the block's first cells is appended |
| Fifos.Fifo.GetBufferToRead | rodos/api/fifo.h:384-399 | the block offered is the first elements, as many as stand before the end of the array |
| Fifos.Fifo.ReadConcluded | rodos/api/fifo.h:402-404 | the first elements are taken off |
| Fifos.Fifo.AdvanceIndexEx | rodos/api/fifo.h:346-352 | the loop computes the remainder, for any number of cells |
| Fifos.BlockOrSinglePuts | rodos/api/fifo.h:72-82 | two fifos in the same state, one filled through a block of at most the offered size and concluded, the other by that many puts, are in the same state afterwards: array, indices, contents |
| Fifos.BlockOrSingleGets | rodos/api/fifo.h:384-404 | likewise for reading: the same elements and the same state |
| SyncFifos.QueueAfter | rodos/api/fifo.h:72-97 | every run of steps, plain or synchronised, keeps the ring equal to what was recorded as put and not yet got |
| SyncFifos.IsQueue | rodos/api/fifo.h:72-97 | in every interleaving of one writer and one reader, index by index and cell by cell, the fifo is a queue of capacity len-1 |
| SyncFifos.CallersElements | rodos/api/fifo.h:72-258 | over every run, what was put is what the callers of the puts not refused passed, in order, and each get not refused was given the next of it |
| SyncFifos.PutTriesAgainIff | rodos/api/fifo.h:197-214 | over every run, a put that slept and goes on tries again, with the element it was called with, if and only if its timeout is positive or none |
| SyncFifos.GetTriesAgainIff | rodos/api/fifo.h:233-250 | likewise for a get |
| SyncFifos.ResumesIff | rodos/api/fifo.h:178-220 | over every run, a put that has taken its element goes on to resume a sleeping reader if and only if it is not the plain one; likewise for gets |
| SyncFifos.NoSlotConflict | rodos/api/fifo.h:79-95 | when the reader is about to load a cell, a store of the writer goes to another one |
| SyncFifos.RefusedIff | rodos/api/fifo.h:73-93 | a put is refused if and only if it finds the fifo full, a get if and only if it finds it empty |
| SyncFifos.SleepersHaveReason | rodos/api/fifo.h:175-258 | a sleeping reader means an empty fifo or a writer whose next step resumes it; dually for the writer |
| SyncFifos.NeverBothAsleep | rodos/api/fifo.h:192-258 | the two sides never sleep at the same time |
| SyncFifos.SleepsIff | rodos/api/fifo.h:196-208 | a call sleeps if and only if it finds the fifo full, or empty, and its timeout is not 0; with timeout 0 it returns at once, nothing changed |
| SyncFifos.PutRetryRefusedIff | rodos/api/fifo.h:192-221 | after any run, an untimed syncPut that finds the fifo full can be refused on its retry, only the reader resuming it, if and only if the reader stands before the resume of an earlier get |
| SyncFifos.GetRetryRefusedIff | rodos/api/fifo.h:228-258 | dually for an untimed syncGet that finds the fifo empty and a writer before its resume |
| SyncFifos.PutRefusedWithoutTimeout | rodos/api/fifo.h:214-220 | a run of synchronised operations that ends in such a refused untimed put |
| SyncFifos.GetRefusedWithoutTimeout | rodos/api/fifo.h:250-257 | a run of synchronised operations that ends in such a refused untimed get |
| MultipleReaderFifos.MultipleReaderFifo.Put | rodos/api/fifo.h:307-321 | always appends to the history; afterwards each reader has one element more before it, but never more than len-1, and has got what it had got |
| MultipleReaderFifos.MultipleReaderFifo.Get | rodos/api/fifo.h:324-331 | delivers history element number gets plus losses of that reader, or nothing exactly when the reader is up to date or unknown |
| MultipleReaderFifos.MultipleReaderFifo.Accounting | rodos/api/fifo.h:311-316 | puts = gets + losses + pending with pending below len, the counter is the exact loss while below 2^32, elements got are in increasing positions |
| MultipleReaderFifos.NothingLostIff | rodos/api/fifo.h:307-331 | over every run of puts and of gets of any readers, a reader gets, with what is still before it, everything put, in order, if and only if no put found len-1 elements before it |
| MultipleReaderFifos.Use | rodos/api/fifo.h:263-335 | what a reader of the class gets over such a run is what a queue of len-1 elements gives that a put into a full one pushes the oldest out of; the counter is what is missing |
| MultipleReaderFifos.MultipleReaderFifo.GetReaderId | rodos/api/fifo.h:292-296 | ids in order, -1 when all are taken |
| MultipleReaderRaces.LostOrDeliveredIff | rodos/api/fifo.h:311-316 | over every interleaving of index and cell accesses, no element is both delivered and counted as lost if and only if no push overlaps the part of a get that uses the reader's index |
| MultipleReaderRaces.HistoryIsArguments | rodos/api/fifo.h:307-319 | in every run, overlapping or not, the history is what the callers of put passed, in order |
| MultipleReaderRaces.PushesIff | rodos/api/fifo.h:309-313 | over every run without overlap, a put pushes a reader that is not ahead of the writer if and only if len-1 elements are before it |
| MultipleReaderRaces.AccountIsExact | rodos/api/fifo.h:307-331 | over every run without such an overlap, whenever both sides are idle, every element before the reader's position was delivered or counted as lost, none twice |
| MultipleReaderRaces.DeliversFromHistory | rodos/api/fifo.h:318-329 | over every run without overlap, a get delivers the element it goes for if that had been put, whatever is stored meanwhile |
| MultipleReaderRaces.CalmRunsDeliver | rodos/api/fifo.h:311-331 | if pushes come only between gets and over elements that have been put, every get delivers an element of the history, none twice and none counted as lost |
| MultipleReaderRaces.TestSaysEmptyIff | rodos/api/fifo.h:326 | after any run without overlap, whichever index was loaded first, the test says empty if and only if the element counts behind the two loaded indices are a multiple of the length apart |
| MultipleReaderRaces.TestIsRight | rodos/api/fifo.h:326 | the test tells whether the fifo is empty if its own index was loaded first and not pushed since, or was empty at the first load if the writer's was and no push has gone beyond it |
| MultipleReaderRaces.FullLooksEmpty | rodos/api/fifo.h:326 | a run without overlap in which a put between the two loads makes a full fifo look empty |
| MultipleReaderRaces.GoesAstrayIff | rodos/api/fifo.h:311-331 | after any run without overlap that does not stop within a push, wherever the reader stands in a get: it can go on to deliver what has not been put, the writer standing still, if and only if the condition for that place holds |
| MultipleReaderRaces.LatePush | rodos/api/fifo.h:312-326 | a run without overlap that puts the reader ahead |
| MultipleReaderRaces.PushAfterTest | rodos/api/fifo.h:312-328 | a run without overlap in which a reader that is not ahead delivers what has not been put, the push having come between its test and its load of the index |
| MultipleReaderRaces.OverlapLosesCount | rodos/api/fifo.h:312-315 | a run in which an element is delivered and counted as lost |
| Scheduling.FindNextToRun | rodos/src/bare-metal-generic/thread_on_hw.cpp:318-353 | a ready thread no ready thread runs before, the first such in the list, or the idle thread; and the earliest wake-up time of the sleepers that are neither below the idle thread nor below a ready thread in front of them in the list |
| Scheduling.SelectedIsCovered | rodos/src/bare-metal-generic/thread_on_hw.cpp:341-347 | the wake-up time a selection reports is no later than that of any sleeper that is not below the selected thread |
| Scheduling.SelectionIsUnique | rodos/src/bare-metal-generic/thread_on_hw.cpp:318-353 | that description determines the thread |
| Scheduling.FindNextWaitingFor | rodos/src/bare-metal-generic/thread_on_hw.cpp:394-414 | the most urgent thread waiting for the signaler, longest not activated first; none exactly when no waiter runs before the idle thread |
| Scheduling.Scheduler.Resume | rodos/src/bare-metal-generic/thread_on_hw.cpp:174-182 | that thread and no other is neither waiting nor suspended, and the scheduler is to look again at the next tick |
| Scheduling.Scheduler.Schedule | rodos/src/bare-metal-generic/scheduler.cpp:95-137 | the selected or preselected thread, and it alone, gets the new count; time to try again and tick follow |
| Scheduling.Scheduler.Yield | rodos/src/bare-metal-generic/thread_on_hw.cpp:87-142 | the caller goes on, nothing stamped, exactly when the selection falls on it; otherwise one scheduling step with the preselection |
| Scheduling.Scheduler.SchedulerWrapper | rodos/src/bare-metal-generic/scheduler.cpp:51-65 | before the time to try again only the tick is re-armed; afterwards a scheduling step |
| RoundRobin.SelectionIsInTop | rodos/src/bare-metal-generic/thread_on_hw.cpp:328-340 | the selection falls on a least recently activated thread of the ready ones with the highest priority |
| RoundRobin.EachExactlyOnce | rodos/src/bare-metal-generic/scheduler.cpp:95-120 | while the n ready threads of highest priority stay the same, n consecutive steps activate each exactly once, whatever the stamps before, ties included |
| RoundRobin.OrderRepeats | rodos/src/bare-metal-generic/scheduler.cpp:95-120 | the step after those starts the same order again |
| RoundRobin.Turns | rodos/src/bare-metal-generic/scheduler.cpp:95-137 | the scheduler object itself does so in n calls |
| TickTimer.Timer.UpdateTriggerToNextTimingEvent | rodos/src/bare-metal-generic/hw_specific_generic.cpp:9-27 | the tick fires no sooner than one spacing from now, no later than the deadline or two spacings from now, and less than a microsecond before the deadline; in microseconds, it is the deadline, or the first multiple of the spacing more than one spacing from now if that is later |
| Lateness.TakeInterrupt | rodos/src/bare-metal-generic/scheduler.cpp:43-69 | what the scheduler object does at a tick is a step of the machine the lateness bound is about |
| Lateness.TakeYield | rodos/src/bare-metal-generic/thread_on_hw.cpp:87-142 | likewise for a yield |
| Lateness.TakeResume | rodos/src/bare-metal-generic/thread_on_hw.cpp:174-182 | likewise for a resume, which moves no tick |
| Lateness.FallingAsleep | rodos/src/bare-metal-generic/scheduler.cpp:131-135 | the switch away from a thread falling asleep arms the tick in time for it, if nothing outranks it |
| Lateness.BoundedLateness | rodos/src/bare-metal-generic/scheduler.cpp:131-135 | over every run of ticks, yields and resumes: the first tick or yield after the wake-up time of a thread nothing outranks comes at most two tick spacings late and selects with that thread ready |
| Lateness.LateFromSuspensionOn | rodos/src/bare-metal-generic/thread_on_hw.cpp:185-199 | the same from the yield on with which the thread falls asleep |
| Lateness.InterruptsAreSpaced | rodos/src/bare-metal-generic/hw_specific_generic.cpp:17-24 | over every run, two ticks are at least one spacing apart, whatever yields and resumes come in between |
| Lateness.SliceEnds | rodos/src/bare-metal-generic/scheduler.cpp:131-135 | whenever a thread is selected in a run, the scheduler looks again within the time slice of 100 ms, and the next tick comes by then |
| TimeModel.NextBeatIsLeast | rodos/src/independent/timemodel.cpp:222-234 | on the grid, after now and within a period, with no beat of the grid between |
| TimeModel.NoBeatIff | rodos/src/independent/timemodel.cpp:225-231 | no next beat if and only if an argument is negative, or the begin is past and the period is 0 or reaches the end of time; before the begin it is the begin |
| TimeModel.NextBeatStaysInt64 | rodos/src/independent/timemodel.cpp:229-233 | no intermediate leaves 64 bits while now plus a period does not |
| TimeModel.SplitTimeECSS | rodos/src/independent/timemodel.cpp:240-245 | seconds and fraction, both within 32 bits |
| TimeModel.JoinStaysInt64 | rodos/api/timemodel.h:201-203 | neither an intermediate nor the result of the join leaves 64 bits, for both fraction sizes |
| TimeModel.SplitThenJoin | rodos/api/timemodel.h:201-203 | the same time if the sub-second part is a multiple of 1 953 125 ns, otherwise exactly one nanosecond less |
| TimeModel.SplitIsStrictlyMonotone | rodos/src/independent/timemodel.cpp:240-245 | later times have lexicographically larger representations |
| TimeModel.DefaultFractSizeNeedsWholeSeconds | rodos/api/timemodel.h:196-203 | with the default fraction size the join is right to a nanosecond if and only if the time is whole seconds |
| TimeModel.JoinIsFloor | rodos/api/timemodel.h:201-203 | for every fraction of either size, the sub-second part joined is the nanosecond below the fraction |
| TimeModel.UpperBitsThenJoin | rodos/api/timemodel.h:196-203 | a split time joined from the upper 16 bits of its fraction is at most 15 259 ns less |
| TimeModel.JoinThenSplit | rodos/api/timemodel.h:196-203 | a 16-bit fraction joined and split again is itself if and only if it is a multiple of 128, otherwise one less |
| TimeEvents.TimeEvent.ActivateAt | rodos/src/independent/timeevent.cpp:37-40 | armed once for that time |
| TimeEvents.TimeEvent.ActivatePeriodic | rodos/src/independent/timeevent.cpp:46-49 | armed for the start and the period |
| TimeEvents.Propagate | rodos/src/independent/timeevent.cpp:57-78 | each due event handled exactly once and re-armed, the others left alone; the result is the number of events that were due |
| TimeEvents.PropagateAt | rodos/src/independent/timeevent.cpp:57-78 | pass after pass over a list of events, each event's time and calls are those of its own run of passes |
| TimeEvents.GetNextTriggerTime | rodos/src/independent/timeevent.cpp:80-89 | the minimum armed time |
| TimeEvents.PropagateAndRearm | rodos/src/independent/timeevent.cpp:57-89 | after a pass the next trigger time is the minimum and not before now |
| TimeEvents.NothingLeftInThePast | rodos/src/independent/timeevent.cpp:61-72 | whatever the arguments, a pass leaves nothing armed in the past |
| TimeEvents.PeriodicRun | rodos/src/independent/timeevent.cpp:59-76 | over every run of passes the event stays armed for the first beat after the last handling; calls come after their own beat and before the next one's, never twice for a beat |
| TimeEvents.PassHandlesIffBeatPassed | rodos/src/independent/timeevent.cpp:61-73 | a pass handles the event if and only if a beat lies between the last handling pass and this one |
| TimeEvents.OneShotRun | rodos/src/independent/timeevent.cpp:63-64 | a one-shot event is handled at most once in any run, late, never early |
| TimeEvents.HandledOnce | rodos/src/independent/timeevent.cpp:61-72 | over every run, an event whose arguments do not repeat is handled if and only if some pass comes after its start, once, and disarmed for good |
| TimeEvents.ArmedAgainIff | rodos/src/independent/timemodel.cpp:225-231 | a handled event is armed again if and only if start and period meet the guards of computeNextBeat |
| TimeEvents.NegativeStartStops | rodos/src/independent/timemodel.cpp:225 | over every run, a negative start is handled at most once |
| PeriodicThread.Thread.SuspendUntilNextBeat | rodos/src/independent/thread.cpp:27-36 | sleeps until the current beat, then computes the next from the time it runs at |
| PeriodicThread.Rounds | rodos/src/independent/thread.cpp:21-36 | the times a thread with a beat sleeps until, over any number of rounds |
| PeriodicThread.SleepsForFirstBeat | rodos/src/independent/thread.cpp:27-36 | over every run, woken late or early: the next beat is the first of the grid after all times the thread ran at, so none is repeated, none skipped, and the grid never shifts |
| SortedLists.SortedList.constructor | rodos/support/support-libs/sortedlist.h:123-127 | an empty circular list |
| SortedLists.SortedList.GetFirst | rodos/support/support-libs/sortedlist.h:129-132 | the first entry or null |
| SortedLists.SortedList.GetLast | rodos/support/support-libs/sortedlist.h:133-136 | the last entry or null |
| SortedLists.SortedList.GetAndRemoveTheFirst | rodos/support/support-libs/sortedlist.h:141-145 | takes the first entry, the rest unchanged |
| SortedLists.SortedList.Find | rodos/support/support-libs/sortedlist.cpp:12-17 | the first entry with the key, null if and only if there is none |
| SortedLists.SortedList.Remove | rodos/support/support-libs/sortedlist.cpp:19-32 | takes out exactly that entry if it is in this list, links and count right again, its own next pointer kept; otherwise nothing |
| SortedLists.SortedList.InsertBefore | rodos/support/support-libs/sortedlist.cpp:34-42 | the entry in front of the given one, the chain well-formed in both directions |
| SortedLists.SortedList.Insert | rodos/support/support-libs/sortedlist.cpp:45-65 | behind all keys up to its own and before all larger ones, taken out of whatever list it was in; the key is the given one but for a negative one in an empty list |
| SortedLists.SortedList.Append | rodos/support/support-libs/sortedlist.cpp:78-93 | last, if the key is not below the last one; otherwise nothing changes |
| SortedLists.SortedList.AppendForce | rodos/support/support-libs/sortedlist.cpp:72-75 | last, with the last key if its own is smaller |
| SortedListWorld.InExactlyOneList | rodos/support/support-libs/sortedlist.h:24-25 | an entry is an element of exactly the list it names, of none if it names none |
| SortedListWorld.Remove | rodos/support/support-libs/sortedlist.cpp:19-32 | keeps all lists well-formed and apart, and takes the entry out of at most this one |
| SortedListWorld.Place | rodos/support/support-libs/sortedlist.cpp:45-93 | insert, append and appendForce with several lists: the entry moves from wherever it was to its place in this list, every other list keeps its elements, order and keys, and all stay well-formed, sorted and apart |
| SortedListWorld.TotalCountsEntries | rodos/support/support-libs/sortedlist.cpp:25-41 | the counters of the lists add up to the number of entries that are in one of them |
| AllocableObjects.Alloc | rodos/support/support-libs/allocableobjects.h:179-188 | fails if and only if every object has a live handle; otherwise hands out the first object that has none |
| AllocableObjects.Pool.AllocIndex | rodos/support/support-libs/allocableobjects.h:179-188 | the first zero counter becomes 1, free count kept exact |
| AllocableObjects.Pool.Init | rodos/support/support-libs/allocableobjects.h:169-173 | all counters zero, all objects free |
| AllocableObjects.Pool.IndexOf | rodos/support/support-libs/allocableobjects.h:196-201 | the index of every item of the buffer and, wrongly, of the one behind its end; what lies behind that or in front of the buffer is refused |
| AllocableObjects.Pool.Free | rodos/support/support-libs/allocableobjects.h:213-223 | one reference less at the item's distance modulo 2^32, refused if there is no such counter or it is 0 |
| AllocableObjects.Pool.CopyReference | rodos/support/support-libs/allocableobjects.h:226-234 | one reference more at the item's distance modulo 2^32, refused if there is no such counter or it is 0 |
| AllocableObjects.SharedPtr.Copy | rodos/support/support-libs/allocableobjects.h:61-65 | one more handle to the same object, all counters again the numbers of live handles |
| AllocableObjects.SharedPtr.Assign | rodos/support/support-libs/allocableobjects.h:81-93 | the handle refers to the other's object, also for self-assignment and handles to the same object; all counters exact |
| AllocableObjects.SharedPtr.Clear | rodos/support/support-libs/allocableobjects.h:117-123 | the handle refers to nothing, all counters exact |
| AllocableObjects.SharedPtr.Destroy | rodos/support/support-libs/allocableobjects.h:70-74 | one live handle less, all counters exact |
| AllocableObjects.FreeItems | rodos/support/support-libs/allocableobjects.h:167 | the number of objects without a live handle |
| AllocableObjects.Reset | rodos/support/support-libs/allocableobjects.h:169-173 | resetting a pool keeps the counts right if and only if no live handle refers to it |
| S3pSenders.S3pSenderSynchronous.PutDataByte | rodos/support/support-libs/s3p-synchronous-interface.h:36-39 | the byte, stuffed if it is a mark |
| S3pSenders.S3pSenderSynchronous.PutCommand | rodos/support/support-libs/s3p-synchronous-interface.h:40-44 | both bytes, nothing for the filler |
| S3pSenders.S3pSenderSynchronous.SendMsg | rodos/support/support-libs/s3p-synchronous-interface.h:45-49 | begin mark, stuffed bytes, end mark |
| S3pSenders.WireFormat | rodos/support/support-libs/s3p-code.h:17-26 | FE 02 in front, FE 03 behind, the message in between with FE 7E for each FE |
| S3pSenders.S3pMsgSenderAsynchronous.GetDualByte | rodos/support/support-libs/s3p-asynchronous-interface.h:85-95 | the next mark or byte of the stream still to come |
| S3pSenders.S3pMsgSenderAsynchronous.GetByteOrNODATA | rodos/support/support-libs/s3p-asynchronous-interface.h:49-65 | exactly the next byte of the stream, the filler only when nothing is left |
| S3pSenders.SendBothWays | rodos/support/support-libs/s3p-asynchronous-interface.h:49-95 | for every list of messages the bytes pulled out of the one encoder are those the other pushes |
| S3pReceivers.DecodersAgreeIff | rodos/support/support-libs/s3p-asynchronous-interface.h:124-140 | the decoders have collected, reported and executed the same after every byte of a stream if and only if it has no two marks in a row |
| S3pReceivers.MarkPairSeparates | rodos/support/support-libs/s3p-code.h:17 | after the first pair of marks in any stream, with buffers of any size, some continuation makes them deliver different messages |
| S3pReceivers.S3pReceiverSynchronous.GetMsg | rodos/support/support-libs/s3p-synchronous-interface.h:73-88 | the first message completed, cut to the buffer, reading exactly through its end mark; waits for ever only if the stream completes none |
| S3pReceivers.FirstMessageIsUnique | rodos/support/support-libs/s3p-synchronous-interface.h:82 | a call can stop at one place of the stream only |
| S3pReceivers.GetAll | rodos/support/support-libs/s3p-synchronous-interface.h:73-88 | repeated calls deliver the messages the decoding automaton reports on the whole stream, and execute its commands |
| S3pReceivers.S3pReceiverAsynchronous.PutByte | rodos/support/support-libs/s3p-asynchronous-interface.h:124-140 | one byte moves fields and buffer as the pushed automaton says; without a buffer only commands have an effect |
| S3pReceivers.PutAll | rodos/support/support-libs/s3p-asynchronous-interface.h:124-140 | byte by byte, the messages and commands of that automaton on the whole stream, a buffer offered whenever it is asked for |
| S3pReceivers.PutWithOffers | rodos/support/support-libs/s3p-asynchronous-interface.h:113-140 | the same with any pattern of moments at which the application has a buffer |
| S3pRoundTrip.AllArrive | rodos/support/support-libs/s3p-synchronous-interface.h:73-88 | whatever lies between and within frames and however often a frame is begun again, exactly the completed messages arrive, in order, each cut to its buffer |
| S3pRoundTrip.StreamDelivers | rodos/support/support-libs/s3p-synchronous-interface.h:73-88 | the same for the bytes of a whole stream and both receivers |
| S3pRoundTrip.OffersDecide | rodos/support/support-libs/s3p-asynchronous-interface.h:124-140 | with buffers offered now and then, the pushed receiver does what it does with a buffer at any time on the stream without the begin marks by whose second byte it had none |
| S3pRoundTrip.CommandsAreExecuted | rodos/support/support-libs/s3p-asynchronous-interface.h:124-140 | either receiver executes exactly the commands for others in a stream, in order, the pushed one also without a buffer, always or now and then; without any it takes no message |
| S3pRoundTrip.EveryStreamHasThisForm | rodos/support/support-libs/s3p-code.h:17-27 | every stream without two marks in a row that does not stop within a command is such a stream |
| S3pRoundTrip.SendAndReceive | rodos/support/support-libs/s3p-synchronous-interface.h:36-88 | messages sent by either sender and taken by either receiver arrive, each cut to its buffer |
| Crc.ComputeCrc | rodos/src/independent/checksumes.cpp:48-66 | the bit-by-bit program computes the checksum of every buffer from every initial value |
| Crc.CRC.constructor | rodos/src/independent/checksumes.cpp:73-86 | the table holds, for every byte, the multiple of the polynomial to subtract |
| Crc.CRC.ComputeCRC | rodos/src/independent/checksumes.cpp:88-98 | the table-driven program computes the same checksum as the bit-by-bit one |
| Crc.ByteIsTableStep | rodos/src/independent/checksumes.cpp:54-62 | eight bits entering one by one are one step through the table |
| CrcWords.ConstantsGiveEntry | rodos/src/independent/checksumes.cpp:75-84 | the eight constants sum up, for every byte, to the closed form of its entry |
| CrcRemainder.ChecksumIsRemainder | rodos/src/independent/checksumes.cpp:48-66 | a word is the checksum of a message if and only if it is the remainder of the message times x^16, the initial value in front, divided by x^16 + x^12 + x^5 + 1 |
| Crc.ChecksumOfConcatenation | rodos/src/independent/checksumes.cpp:48-66 | the checksum of a concatenation is that of the second part started from that of the first |
| Crc.ResidueIsZero | rodos/src/independent/checksumes.cpp:48-66 | two trailing bytes give residue 0 if and only if they are the checksum, high byte first |
| Crc.DetectsBurst | rodos/src/independent/checksumes.cpp:48-66 | damage confined to two neighbouring bytes always changes the checksum |

## Left out

- ByteStreamRingBuffer.ByteStreamRingBuffer.Write: what reads and writes do with a bare header left by a negative length, and
  a ring of a single word written to with one.
- Semaphore.InvAfter: a ceiling scope is one step up to the point where the thread suspends itself; interrupt
  handlers running inside one are not modelled, nor are the yields at the end of `enter` and `leave`
  (and the check of `ownerPriority` before the latter), which change no field of the semaphore.
- Semaphore.LeaveHandsOver: that the idle thread is not a user of the semaphore and below the ceiling priority is assumed.
- CommBuffer.GetIsConsistent: the statistics counters `writeCnt` and `readCnt` and `putZero` are not modelled.
- SyncFifos.IsQueue: element values are integers; `putErrors` and `getErrors` are counted in `Fifos` only.
- SyncFifos.PutRetryRefusedIff: resumes of the caller by a thread other than reader and writer, which can end any wait.
- Scheduling.Scheduler.Schedule: one clock reading per step; `checkStackViolations`, context switches and
  the hardware timer behind the interval are not modelled, and the 64-bit schedule counter does not wrap.
- Scheduling.Scheduler.Yield: no timer interrupt between its selection and the scheduler, so the paths that
  detect one are not taken.
- Scheduling.FindNextToRun: stands for its twin `findNextToRunFromISR`, which differs in how atomics are loaded.
- TimeEvents.Propagate: handlers that re-arm events or take other events out of the list.
- PeriodicThread.Thread.SuspendUntilNextBeat: a period of 0, for which the code never returns.
- AllocableObjects.Pool.Free: the item one behind the end, for which the code leaves its array; likewise `CopyReference`.
- AllocableObjects.Alloc: the buffer of objects, to which the pool only hands out pointers; fewer than 2^32 - 1
  handles are alive, beyond that the counters wrap.
- S3pReceivers.S3pReceiverSynchronous.GetMsg: the channel is a finite stream; waiting for ever is reported as -1.
- Time and counters are unbounded integers except where a statement says 64 or 32 bits.
- `localTime2Calendar`, modified Julian dates, UTC drift: half of it is floating point.
- `RingBuffer` in ringbuffer.h, the gateway and router, string and print helpers: no state worth an invariant, or
  no visible contract.
- The posix port, device drivers, idle thread's sleep mode, watchdog: foreign or hardware behaviour.
- Priority inheritance across several semaphores: the code does not maintain it.
