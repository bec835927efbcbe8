# Verified model of the lightc runtime

lightc is a freestanding C runtime: a thread-aware heap, containers, futex locks, an io_uring event loop,
coroutines, calendar and text routines, and a small dynamic loader.  This project models its hardest parts in
Dafny and proves what they are for.  `dafny verify dfyconfig.toml` checks all of it.

How the source's forms are modelled:

- Code that several threads run at once (mutex, reader-writer lock, barrier, remote free list, SPSC ring) is a
  step machine.  One atomic operation or one futex call is one step; states, steps and runs are explicit; the
  theorems are about every state of every run, for any number of threads, and the locks also have liveness
  theorems about every schedule.
- Code that updates its own state (hash map, submission and completion rings, event loop, block cache, page
  bitmap, scheduler, text builder, buffered I/O) is a class or an array algorithm with loops.  `Valid()` is the
  invariant that every operation keeps, and a ghost field or function gives the abstract value: a finite map, a
  stream, a string, the fate of every mapping or connection.
- Code that only computes (calendar, size classes, layout) is functions, compared with independent definitions.
- The kernel is a parameter or a script of answers: which calls fail, how much they transfer, what it consumes
  or posts in the meantime.

| file | part of lightc |
|---|---|
| Mutex, RwLock, Barrier | futex primitives |
| RemoteFree, HeapLayout, Heap, LargeCache | heap: remote frees, bitmap pages and size classes, all pages together, large blocks |
| RobinHood, HashMap, PowerOfTwo, RingBuffer | containers |
| AsyncRing, EventLoop, IoLoop | io_uring rings, the slots and descriptors of the event loop, and the loop over both |
| Scheduler | coroutine scheduler |
| Calendar, Format, Iso8601 | time and text |
| WordScan, BufferedIo | memory scanning, buffered I/O and retry loops |
| SymbolLookup | symbol lookup in loaded libraries |
| Bits, Common | masks, powers of two, wrap-around, counting and optional results, used by the others |

Where the code differs from what its comments or names say or from what one would expect, the model follows the
code.  For each difference there is an exact condition and, but for the accept of the event loop, an input or a run
that shows it:

- `lc_ringbuf_create` multiplies capacity and element size without a check for wrap-around, so that the buffer can
  be smaller than the ring.  `RingBuffer.SizeWraps` is an instance; `RingBuffer.CopiesStayInside` and
  `RingBuffer.FirstInFirstOutExactly` say that a ring works in every run exactly if the product is below 2^64, and
  `RingBuffer.NeverOverwritesExactly` when slots overlap.
- A comment in `lc_async_flush` says that entries which the kernel does not take are submitted by a later enter.  A
  later flush asks only for as many entries as are new, so they stay behind: `AsyncRing.LeaveOneBehind` is an
  instance, `AsyncRing.Ring.MakeCalls` says that the backlog never gets smaller, and `AsyncRing.Ring.Flush` when
  nothing stays behind.
- The event loop ignores whether the next accept could be staged.  `IoLoop.IoLoop.OnCompletions` says exactly when
  an accept is under way after a batch, and `IoLoop.IoLoop.Run` that without one no connection ever comes again.
- A hash table of more than 2^32 slots is used as one of 2^32, because slots are numbered in 32 bits, but its load is
  computed from all of them.  `HashMap.Map.Set` and `HashMap.Map.Probe` say exactly what then fails, with 2^32 keys
  and not before; `HashMap.NoTableHoldsMore` and `HashMap.ProbeGoesRound` show it.
- `RWLOCK_WRITE_BIT` stands for a writer, but 2^31 readers make the same word.  `RwLock.ReaderOverflow` is a run to
  that state, and by `RwLock.BitExactly` the test of the bit is exact if and only if there are fewer threads.
- The last thread at a barrier wakes at most 2^31 - 1 others.  By `Barrier.CoveredExactly` nobody is left asleep, in
  any run, if and only if there are at most 2^31 participants; `Barrier.LeftAsleep` is a run for more.
- `lc_format_finish` writes the terminator outside a buffer of size 0, and only then: `Format.Builder.Finish`,
  `Format.FinishWithoutBuffer`.
- Comments in `src/heap.c` speak of 16-byte alignment.  Blocks of 40 and 56 bytes are only aligned to 8;
  `HeapLayout.Aligned16Exactly` says for which classes 16 holds, and `HeapLayout.Aligned16Fails` shows a block.
- `get_symbol_count` means to return the first hashed index when a GNU table hashes no symbol, but the test for
  that case can never succeed; by `SymbolLookup.GnuCountExact` the count is right exactly if some bucket is not
  empty, and `SymbolLookup.GnuCountFails` has a library with one symbol that counts two.
- `lc_library_find_symbol` falls back to the linear scan only without hash tables, and then the count is 0, so
  the fallback finds nothing; by `SymbolLookup.FindSymbol` that is right exactly if nothing of that name is exported,
  and `SymbolLookup.FallbackFindsNothing` has a library where it is wrong.
- The hash indexes do not look at a symbol's binding, the linear scan does; `SymbolLookup.AnswersExactly` and
  `SymbolLookup.AgreesExactly` give the exact condition under which an index is right, and
  `SymbolLookup.LocalSymbolFound` a library where it is not.
- `lc_reader_read_line` with a buffer of one byte returns 0 even at the end of the stream
  (`BufferedIo.ReadLineIntoOneByte`); `BufferedIo.Reader.ReadLine` states the exact condition for -1.
- `lc_time_from_unix` narrows the year to 32 bits; `Calendar.UnixRoundTrip` gives the exact range of seconds that
  convert back, and `Calendar.UnixRoundTripFails` the first one beyond it.

## Model

| member | source | states |
|---|---|---|
| Mutex.InvStep | src/thread.c:125-152 | every atomic or futex step of lock, unlock and try-lock keeps: one owner at most, word non-zero exactly while somebody owns it, and no sleeper without a contended word or a rescuer |
| Mutex.MutualExclusion | src/thread.c:125-146 | in every run of any number of threads two owners are the same thread, also in the window between an unlocker's decrement and its store of 0 |
| Mutex.SleeperCovered | src/thread.c:132-146 | whenever a thread sleeps the word is 2 under a holder, or an unlocker has yet to store or wake, or an awake contender is about to exchange in 2 |
| Mutex.TryLockExact | src/thread.c:148-152 | in every run a try-lock ends owning the mutex exactly if nobody owned it, and otherwise has changed nothing |
| Mutex.LockEndsHolding | src/thread.c:125-137 | a lock call has returned only if the thread owned the mutex in between: in every run it never gives up |
| Mutex.EveryContenderServed | src/thread.c:125-146 | from any such state, once no new caller arrives, every schedule brings every thread that is in a lock call to own the mutex, and then reaches a state where all have returned |
| RwLock.WordIsExact | src/thread.c:177-223 | in every run, for any number of threads, the word is the number of readers, or exactly the write bit with one writer and no reader |
| RwLock.SleeperCovered | src/thread.c:177-223 | in every reachable state with a sleeper somebody is awake who holds the lock, has a wake to issue, or contends, however wake-one and wake-all, which stops at 2^31 - 1, mix sleeping readers and writers |
| RwLock.LockEndsInside | src/thread.c:177-218 | a read lock call has returned only after the thread was a reader, and a write lock call only after it was the writer, in every run |
| RwLock.ReaderOverflow | src/thread.c:179-188 | for any 2^31 threads or more there is a run after which 2^31 of them read and the word is the write bit, without a writer |
| RwLock.BitExactly | src/thread.c:175-188 | the write bit tells in every run whether somebody writes, if and only if there are fewer than 2^31 threads |
| RwLock.EveryContenderServed | src/thread.c:177-223 | once callers stop arriving, every schedule brings every thread in a read lock call to read and every one in a write lock call to write, and then empties the lock |
| Barrier.NobodyLeavesEarly | src/thread.c:233-248 | nobody has returned from more generations than every participant has arrived at, over any number of reuses |
| Barrier.CountersAreHistory | src/thread.c:233-248 | the auxiliary counters of that claim are, in every run, the number of arrivals among the actions and of returns among the states |
| Barrier.NoArrivalLost | src/thread.c:233-241 | outside the two steps that close a generation, count is the number of threads that arrived in it, so the reset loses none |
| Barrier.WaiterLagsAtMostOne | src/thread.c:244-247 | a waiter's phase is the current or the previous one, and equal to the 32-bit phase word exactly while its generation is open, wrapped or not |
| Barrier.NoSleepPastGeneration | src/thread.c:238-247 | with at most 2^31 participants, a thread asleep after its generation ended is about to be woken by a thread that is at the wake call |
| Barrier.CoveredExactly | src/thread.c:233-248 | that holds in every run if and only if there are at most 2^31 participants |
| Barrier.LeftAsleep | src/thread.c:233-248 | for more participants there is a run after which one sleeps although its generation has ended, and nobody is about to wake it |
| Barrier.EveryGenerationEnds | src/thread.c:233-248 | as long as the participants keep taking their steps, whatever the schedule, the current generation ends, so the barrier can be reused for ever |
| RemoteFree.InvStep | src/heap.c:240-294 | every load, store, compare-and-swap and exchange of owner and foreign freers keeps the two lists well linked and bits, counter and block states in agreement |
| RemoteFree.NoDoubleHandout | src/heap.c:641-664 | in every run, between two allocations of the same block somebody frees it |
| RemoteFree.SwapPrepends | src/heap.c:268-277 | a compare-and-swap that succeeds prepends its block to the list that is current at that moment, even when the head it compared with was drained, reused and pushed again in between |
| RemoteFree.PushIsCompleted | src/heap.c:268-277 | a foreign free that has returned did a compare-and-swap that put its own block on the list: in every run none gives up |
| RemoteFree.FailsOnlyByProgress | src/heap.c:268-277 | a compare-and-swap that does not fail spuriously fails only if since its load another one succeeded or the list was drained |
| RemoteFree.NobodyStuck | src/heap.c:257-294 | in every run every free, push and drain that has begun can take its next step, whatever the others do, and those that callers may begin can begin |
| RemoteFree.AllocationSucceeds | src/heap.c:240-254 | in every run the owner can allocate from the page whenever a block of it is free |
| RemoteFree.LocalFreeReturns | src/heap.c:257-264 | a free by the owner clears the bit of that block, and only that one |
| RemoteFree.EveryBlockInOnePlace | src/heap.c:240-294 | each block is in exactly one of free, live, being pushed by one thread, or listed, and a thread is pushing a block if and only if the block counts as pushed by it; its bit is set exactly when it is not free; used_count is the number of such blocks |
| RemoteFree.NoFault | src/heap.c:268-294 | pushes and drains touch only blocks of the page, and used_count never goes below zero |
| RemoteFree.DrainReturnsAll | src/heap.c:280-294 | every block pushed before the drain's exchange is free when the drain ends, whatever is pushed meanwhile |
| RemoteFree.FreedByDrain | src/heap.c:268-294 | a block that a foreign free has put on the list is free at some point before a drain that begins later has ended |
| RemoteFree.FreedByFirstDrain | src/heap.c:268-294 | and it is free, with its bit clear, when the first drain after the free has ended |
| Heap.InvStep | src/heap.c:543-561 | every step of every thread on any page, and every new page, keeps each page one bucket, its place and the invariant of the remote-free protocol |
| Heap.LiveBlocksDisjoint | src/heap.c:503-561 | in every run over all pages and segments, two blocks that are handed out at the same time have no byte in common |
| Heap.NoSharedByte | src/heap.c:641-664 | in every run, two allocations that contain the same byte have a free of the first between them |
| Heap.OneThreadPerBitmap | src/heap.c:641-664 | in every run the bitmap of a page is used by one thread only, its owner, which is why it needs no lock |
| Heap.SmallHeap.NewPageFor | src/heap.c:518-561 | a fresh page, taken from the segment records and initialised, was in use by nobody, and its bitmap is that of a new page: a step of the machine above |
| RobinHood.BackChain | src/containers.c:220-231 | behind an entry at distance d all slots back to its home are occupied, at distances large enough |
| RobinHood.EarlyExit | src/containers.c:283-296 | an empty slot or a smaller cached distance proves the key absent from the whole table |
| RobinHood.SomeEmpty | src/containers.c:258-262 | below capacity an empty slot exists, which is what ends every probe |
| RobinHood.AnchorStays | src/containers.c:317-325 | even a full table has an entry at home, where the backward shift ends |
| RobinHood.PutKeepsTable | src/containers.c:201-231 | placing or displacing an entry keeps cached distances true and the order that early exit relies on |
| RobinHood.CloseHole | src/containers.c:317-329 | after the backward shift the hole can be emptied: the table is again well formed and holds the rest of the map |
| HashMap.Slot | src/containers.c:191-191 | masking the hash with the 32-bit mask gives the home slot modulo the capacity, or modulo 2^32 for larger tables |
| HashMap.InsertEntry | src/containers.c:189-232 | for any hash function the table then holds the map with the key set, in Robin Hood order, if the key is there or a slot is free; the result says whether the key was new |
| HashMap.ShiftLoop | src/containers.c:318-325 | moving displaced entries back one by one keeps every entry placed, up to one hole |
| HashMap.DeleteAt | src/containers.c:317-329 | deletion by backward shift ends and leaves exactly the map without that key, in a full table too |
| HashMap.Rehash | src/containers.c:234-256 | re-inserting into a larger table gives the same map |
| HashMap.Map.Probe | src/containers.c:278-296 | the probe with early exit finds a key if and only if the map has it; it goes round for ever exactly if the key is missing and no slot stops it, which takes 2^32 keys |
| HashMap.Map.Get | src/containers.c:275-297 | the value the finite map has for the key, or none; `endless` is as for the probe |
| HashMap.Map.Contains | src/containers.c:341-363 | membership in the finite map; `endless` is as for the probe |
| HashMap.Map.Grow | src/containers.c:234-256 | growth to twice the capacity, or to 16, changes no content and leaves room below the load limit; failure changes nothing |
| HashMap.Map.Set | src/containers.c:258-273 | refines map update, count is the map's size, and on failure the map is unchanged; the table is doubled exactly when one more entry would make it more than three quarters full; there is no slot exactly for a new key when there are 2^32 |
| HashMap.Map.Remove | src/containers.c:299-339 | refines map removal and returns the removed value, with both absent-key paths; `endless` is as for the probe |
| HashMap.NoTableHoldsMore | src/containers.c:189-232 | when all slots are taken, no table of that size holds the map with one more key, whatever insertion does |
| HashMap.ProbeGoesRound | src/containers.c:283-296 | a well-formed full table of any size, and a missing key whose probe nothing stops |
| PowerOfTwo.NextPowerOf2Exact | src/containers.c:17-27 | for every request up to 2^63, 0 too, the result is 2^k for some k up to 63 and the least power of two that is enough; above that it is 0 |
| PowerOfTwo.OrAndSum | src/containers.c:20-25 | bitwise or and bitwise and together give the sum, for all numbers |
| PowerOfTwo.SmearDoubles | src/containers.c:20-25 | each shift-and-or step doubles the run of ones below the highest bit, so that six of them fill a word |
| RingBuffer.CreatedCapacity | src/containers.c:385-408 | whatever the request, creation gives an unused ring whose capacity is a power of two, as the index masks need, or 0 |
| RingBuffer.FirstInFirstOut | src/containers.c:419-449 | in every interleaving of one producer and one consumer, byte by byte, what is popped is a prefix of the arguments of the pushes that were not refused, and at most capacity elements are under way, across wrap-around of both 64-bit indices; the buffer has capacity * width bytes |
| RingBuffer.PushedIsAccepted | src/containers.c:419-434 | the elements that count as pushed are the arguments of the push calls that published a tail, in order |
| RingBuffer.PushEnds | src/containers.c:419-434 | a push that has returned published its argument, or was refused and found the ring full |
| RingBuffer.PopGivesOldest | src/containers.c:436-449 | a pop that gives something gives the oldest argument that no pop has given before |
| RingBuffer.PopEnds | src/containers.c:436-449 | a pop that has returned gave an element, or found the ring empty |
| RingBuffer.NobodyWaits | src/containers.c:419-449 | in every run producer and consumer can take their next step, whatever the other one is doing |
| RingBuffer.WaitFree | src/containers.c:419-449 | a push makes at most width + 3 steps of its own before it returns and a pop at most width + 2, however many the other one makes meanwhile |
| RingBuffer.FirstInFirstOutExactly | src/containers.c:385-449 | over all runs of a ring created with any arguments in memory with any contents, what comes out is a prefix of the arguments that went in if and only if the rounded capacity times the element size is below 2^64 |
| RingBuffer.NeverOverwritesUnread | src/containers.c:419-434 | no byte is written over any byte of an element that is unread or being read, if no slot number times the element size reaches 2^64 |
| RingBuffer.NeverOverwritesExactly | src/containers.c:385-434 | over all runs of a ring created with any arguments that holds if and only if the largest such product is below 2^64 |
| RingBuffer.TestsExact | src/containers.c:424-441 | push reports full, and pop empty, exactly when the ring is so at the moment of the test |
| RingBuffer.CopiesStayInside | src/containers.c:385-449 | over all runs of a ring created with any arguments, every copied byte lies in the memory that creation asked for if and only if the rounded capacity times the element size is below 2^64 |
| RingBuffer.SizeWraps | src/containers.c:385-392 | 2^61 slots of 8 bytes: creation asks for no byte at all |
| RingBuffer.NoMemoryNoCopies | src/containers.c:385-449 | a ring whose allocation failed copies nothing, whatever is called |
| AsyncRing.Ring.QueuedExact | src/async.c:306-313 | with 32-bit wrap-around, tail + pending - head is the number of entries staged and not consumed, and the masked index is the slot of the next one |
| AsyncRing.Ring.Submit | src/async.c:297-328 | an entry is staged exactly when there is room, in order, and overwrites nothing the kernel has not consumed, although the kernel consumes meanwhile |
| AsyncRing.Ring.ConsumeOne | src/async.c:310-326 | through the index array the kernel sees staged entries in staging order, each once |
| AsyncRing.Ring.Flush | src/async.c:345-377 | everything staged is published once; partial enters consume a prefix in order, and the count returned is what was consumed; what earlier flushes left behind stays, and nothing is left exactly if nothing was and the kernel takes all that is new |
| AsyncRing.Ring.MakeCalls | src/async.c:297-377 | whatever is submitted and flushed, the entries left behind never get fewer |
| AsyncRing.LeaveOneBehind | src/async.c:356-375 | two entries, of which the kernel takes one: no later flush submits the other |
| AsyncRing.InterruptionsAreHarmless | src/async.c:371-375 | interrupted enters alone lose nothing |
| AsyncRing.TakenExact | src/async.c:369-375 | of any answers those count that come before the first that is neither an interruption nor progress, and nothing after it |
| AsyncRing.Ring.GetFreeSlots | src/async.c:434-441 | exactly the entries that could still be staged, for the indices it observes |
| AsyncRing.Ring.Reap | src/async.c:132-148 | completions are returned once each, oldest first, as many as there were and fit, while the kernel goes on posting |
| AsyncRing.Ring.CopyOut | src/async.c:138-144 | the copy loop returns the unreaped completions in order across 32-bit wrap-around |
| EventLoop.Loop.AllocSlot | src/lightio.c:115-130 | the first free slot gets the new connection; active_count and all other slots stay exact |
| EventLoop.Loop.InitCoroutine | src/lightio.c:151-172 | without a stack the slot goes back to free, its connection closed and active_count restored |
| EventLoop.Loop.OnAccept | src/lightio.c:316-326 | a new connection is in a ready coroutine if a slot and a stack could be had, and closed otherwise; existing coroutines are untouched |
| EventLoop.Loop.OnCompletion | src/lightio.c:314-341 | an I/O completion wakes the very coroutine that waits for that operation, which is the one of the connection that issued it, with its result; a new connection gets the next number and a ready coroutine, or is closed; the log says which |
| EventLoop.StaysHandled | src/lightio.c:313-341 | what a completion led to is not undone by later completions of the same batch |
| EventLoop.Loop.CloseStream | src/lightio.c:461-468 | the stream's descriptor, if it has one, is open and is closed once, and slot and stream forget it, so that nobody closes it again |
| EventLoop.Loop.Suspend | src/lightio.c:427-429 | a coroutine that suspends awaits the operation staged last, no other slot awaits it, and the operation is recorded as issued by its connection |
| EventLoop.Loop.Release | src/lightio.c:281-291 | a slot is freed with its connection closed, by itself or by the handler before |
| EventLoop.Closes | src/lightio.c:281-291 | closing a slot's descriptor keeps the accounting of operations, descriptors and connections |
| EventLoop.AllClosed | src/lightio.c:306-311 | with no slot in use, every connection ever accepted has been closed |
| IoLoop.IoLoop.TryStage | src/lightio.c:395-415 | staging succeeds exactly if the submission ring has room, or a flush makes the kernel take something; what is then staged, behind everything staged before, is the operation asked for with the tag given, and nothing otherwise |
| IoLoop.IoLoop.SubmitAndSuspend | src/lightio.c:395-433 | a coroutine is suspended exactly when the operation it asked for is in the submission ring under its slot number, and what the loop takes to be under way stays what is staged and not processed |
| IoLoop.IoLoop.RunTurn | src/lightio.c:273-292 | whatever a handler does in its turn, it makes the steps of its script up to an operation that it then waits for and that alone is staged, the first in the script if there is room, or all of them, and is then free with the connection it was given closed; the loop is stopped exactly if one of these steps stops it |
| IoLoop.IoLoop.RunReady | src/lightio.c:272-294 | every ready coroutine gets its turn; the entries staged are the operations that the waiting ones asked for, one each in slot order; every connection whose slot was freed is closed; the other slots are untouched |
| IoLoop.RanStep | src/lightio.c:273-280 | one step more of a handler extends what its turn has staged, stopped and closed by what that step does |
| IoLoop.LinkReap | src/lightio.c:313-341 | the next completion is of an operation under way, carries the tag it was staged with, and ends it |
| IoLoop.IoLoop.Wait | src/async.c:379-391 | publishes all that is staged, lets the kernel make every move that it can, and returns the completions posted and not yet reaped, oldest first: all of them, or a batch of 64 |
| IoLoop.IoLoop.OnCompletions | src/lightio.c:313-341 | after a batch reaped from the completion ring, each I/O completion has resumed the coroutine of the connection that issued its operation, with its own result, and each new connection has a ready coroutine or is closed; one accept of the listening socket is staged for each accept in the batch while the loop runs and there is room, and nothing else; an accept is under way exactly if one was and is not in the batch, or one in the batch could be renewed |
| IoLoop.IoLoop.SubmitAccept | src/lightio.c:326-331 | the accept of the listening socket is staged exactly if the submission ring has room, behind everything staged before |
| IoLoop.IoLoop.Serve | src/lightio.c:373-381 | the loop has its listening socket, and the first accept of it is staged exactly if there is room |
| IoLoop.IoLoop.RunRound | src/lightio.c:271-342 | one round keeps the rings, the operations under way, the log, the descriptors and the connections accounted for; it stages what the handlers asked for and then the renewed accepts; what was asked for is published before the loop waits; the loop is left exactly if a handler stopped it or no slot is in use and no socket listens |
| IoLoop.IoLoop.Run | src/lightio.c:267-343 | over any number of rounds, whatever handlers and kernel do: the entries staged are the operations of the handlers and the renewed accepts, each once and in order; every completion reaped was processed, once and in order, I/O to the connection that issued it; the connections are exactly the successful accepts reaped; the loop is left exactly when stopped or out of work, and then has closed every connection if it ran out of work; without an accept under way no connection ever comes again |
| IoLoop.AllNewClosed | src/lightio.c:306-325 | when every connection of the loop is closed, so is every one that a reaped accept brought |
| Calendar.DayRoundTrip | src/time.c:16-48 | every day number has a valid proleptic Gregorian date, which converts back to it |
| Calendar.DateRoundTrip | src/time.c:16-48 | every valid date converts to a day number and back to itself |
| Calendar.DaysSucceed | src/time.c:16-32 | the date of day n + 1 is the calendar successor of the date of day n |
| Calendar.Epoch | src/time.c:16-32 | day 0 is the first of January 1970 |
| Calendar.NextDayIsNext | src/time.c:38-48 | the calendar successor of a valid date has the next day number |
| Calendar.EarlierDate | src/time.c:38-48 | earlier dates have smaller day numbers |
| Calendar.YearOfEraExact | src/time.c:22-24 | the division formula recovers the year of the 400-year era from any of its days |
| Calendar.IsLeapYearExact | src/time.c:53-55 | leap years under C's remainder are those of the Gregorian rule, for negative years too |
| Calendar.DayOfYearIsDistance | src/time.c:60-69 | day of year is the distance from January 1 |
| Calendar.WeekdayExact | src/time.c:121-123 | weekday is (n + 4) mod 7 on both sides of the epoch |
| Calendar.UnixDay | src/time.c:107-114 | day and second of day are floored, before 1970 too |
| Calendar.FromUnixFields | src/time.c:104-129 | all fields of the broken-down time, in terms of the day and the second of the day |
| Calendar.UnixRoundTrip | src/time.c:104-134 | converting a second to broken-down time and back gives it again if and only if it lies in the range -67768100567971200 up to, not including, 67767976233532800 |
| Calendar.YearFitsExact | src/time.c:104-129 | that range is the seconds whose year fits the 32-bit field |
| Calendar.UnixRoundTripFails | src/time.c:104-134 | the first second after the range does not come back |
| Calendar.TimeRoundTrip | src/time.c:104-134 | converting a valid broken-down time to seconds and back restores date and clock |
| LargeCache.PagesForIsLeast | src/heap.c:587-588 | the page count is the least that holds request and header |
| LargeCache.LargeHeap.FindBest | src/heap.c:594-602 | the smallest cached mapping that fits, the first of equals, or none |
| LargeCache.LargeHeap.Obtain | src/heap.c:590-620 | a cached mapping leaves the cache with its true page count, or a new one is made |
| LargeCache.LargeHeap.Allocate | src/heap.c:583-635 | each mapping stays in one of live, cached or unmapped; the prefix has the true size of the mapping; reuse is best fit; requests that would wrap fail |
| LargeCache.LargeHeap.FindSmallest | src/heap.c:719-723 | the smallest entry of a full cache, the first of equals |
| LargeCache.LargeHeap.FreeIntoFull | src/heap.c:717-735 | a free into a full cache unmaps one whole mapping and keeps the 16 largest of the 17 candidates; of equals it is the block freed that goes |
| LargeCache.LargeHeap.Free | src/heap.c:701-736 | a freed block is cached with its true size, or one whole mapping is released |
| HeapLayout.FindBucket | src/heap.c:213-230 | for every size_t request the least size class that fits with its header, or LARGE exactly when none does |
| HeapLayout.SkippedTooSmall | src/heap.c:222-224 | the classes skipped by starting at the highest bit's group are all too small |
| HeapLayout.PageFromPointerExact | src/heap.c:205-210 | any address inside a block leads back to the segment and page that own it |
| HeapLayout.ClearOfRecords | src/heap.c:201-203 | no block reaches the segment and page records or leaves the segment |
| HeapLayout.BlocksDisjoint | src/heap.c:503-541 | different blocks of any pages and segments have no byte in common |
| HeapLayout.BlockNumber | src/heap.c:257-260 | the block number computed on free is the one used on allocation |
| HeapLayout.Aligned8 | src/heap.c:56-64 | every block handed out is aligned to 8 |
| HeapLayout.Aligned16Exactly | src/heap.c:21-30 | 16-byte alignment, which the comments claim, holds for a class if and only if its block size is a multiple of 16 |
| HeapLayout.Aligned16Fails | src/heap.c:21-30 | the second block of the 40-byte class is 8 bytes off a multiple of 16 |
| HeapLayout.SegmentInMapping | src/heap.c:480-498 | the aligned segment is the first in the mapping it is cut from, and lies inside it |
| HeapLayout.BlockCountExact | src/heap.c:518-524 | a page has as many blocks as fit into it, and not one less |
| HeapLayout.PageStore.GetFreshPage | src/heap.c:544-561 | a page that had no bucket, first in old segments and in a new one only when all are taken; no other page changes |
| HeapLayout.HeapPage.InitForBucket | src/heap.c:518-541 | exactly the padding bits are set |
| HeapLayout.HeapPage.AllocateBlock | src/heap.c:240-254 | the lowest clear bit, always below block_count because of the padding, or none exactly when all blocks are used |
| HeapLayout.HeapPage.FreeBlock | src/heap.c:257-264 | clears the bit of the block at that address and no other |
| SymbolLookup.StrEqualBounded | src/library.c:219-228 | true exactly when the terminated string at that offset is the name, without reading past the table |
| SymbolLookup.FindWithGnuHash | src/library.c:412-479 | on a well-formed table, for any hash function, finds a name exactly when a hashed defined symbol has it |
| SymbolLookup.FindWithElfHash | src/library.c:482-516 | on a well-formed table finds a name exactly when a defined symbol has it |
| SymbolLookup.FindWithLinearScan | src/library.c:569-587 | with a right count, finds a name exactly when an exported symbol has it |
| SymbolLookup.OneAnswer | src/library.c:569-587 | for names exported at most once there is only one right answer, so lookups that are right agree |
| SymbolLookup.IndexAnswers | src/library.c:412-515 | an index gives the linear scan's answer for names that it indexes exactly when exported |
| SymbolLookup.AnswersExactly | src/library.c:412-587 | for names defined at most once, an index gives the right answer if and only if the name is indexed exactly when it is exported |
| SymbolLookup.AgreesExactly | src/library.c:412-587 | for names defined at most once, index and linear scan agree if and only if the name is indexed exactly when it is exported |
| SymbolLookup.LocalSymbolFound | src/library.c:482-587 | a library with one local symbol, which the ELF index finds and the linear scan does not |
| SymbolLookup.GnuCountExact | src/library.c:546-562 | the count taken from a well-formed GNU table is right if and only if some bucket is not empty |
| SymbolLookup.HashesExact | src/library.c:546-552 | some bucket is not empty if and only if the table hashes at least one symbol |
| SymbolLookup.GnuCountFails | src/library.c:546-562 | a well-formed library with one symbol and an empty GNU table, which counts two |
| SymbolLookup.GetSymbolCount | src/library.c:521-566 | the true number of symbols for well-formed tables, 0 without tables |
| SymbolLookup.FindSymbol | src/library.c:909-932 | with a table the public lookup is right for names indexed exactly when exported, and for names defined at most once only for those; without any it finds nothing, which is right exactly if nothing of that name is exported |
| SymbolLookup.FallbackFindsNothing | src/library.c:569-587 | a library without tables that exports a name |
| WordScan.HasZeroExact | src/mem.c:12-14 | the word test is non-zero exactly when some byte is zero |
| WordScan.HasByteExact | src/mem.c:75-79 | and, after exclusive or with a broadcast byte, exactly when some byte equals it |
| WordScan.WordHasByte | src/mem.c:75-79 | the same in terms of the bytes in memory |
| WordScan.StrLen | src/mem.c:49-63 | the distance to the first terminator for every content and alignment, reading words only at aligned addresses and none past the one that holds it |
| WordScan.MemChr | src/mem.c:65-90 | the first match or none, as a byte search gives it, for every content, length and alignment, reading no byte beyond the count, and words only at aligned addresses |
| WordScan.MemMove | src/mem.c:23-32 | the destination gets what the source held, for every overlap, and nothing else changes |
| Scheduler.Fair | src/coroutine.c:221-258 | between two consecutive turns of one coroutine every other unfinished one gets exactly one turn, and finished ones none |
| Scheduler.StaysFinished | src/coroutine.c:185-258 | a finished coroutine is never switched to again |
| Scheduler.Scheduler.FindNext | src/coroutine.c:236-246 | the first unfinished coroutine after the current one, itself last, or none exactly when all have finished |
| Scheduler.Scheduler.Yield | src/coroutine.c:221-258 | control goes to the next unfinished coroutine, the only one running, or back to the caller exactly when all have finished |
| Scheduler.Scheduler.TakeTurn | src/coroutine.c:53-66 | active_count stays the number of unfinished coroutines through every yield and end, and is 0 when control returns to the caller |
| Scheduler.Scheduler.Run | src/coroutine.c:185-219 | the first turn goes to the first unfinished coroutine; the call returns, with all finished, after every coroutine that was unfinished has run to its end and had one turn more than it yields |
| Format.DecimalRoundTrip | src/format.c:22-34 | decimal digits parse back to the number |
| Format.DecimalIsNumeral | src/format.c:22-34 | the digits are decimal digits without a leading zero, but for 0 itself |
| Format.NumeralUnique | src/format.c:22-34 | there is only one such numeral for each number |
| Format.AtMost20 | src/format.c:117-122 | a 64-bit number has at most 20 digits, the size of the buffer |
| Format.SignedRoundTrip | src/format.c:124-132 | signed decimals are a sign exactly for negative numbers and the numeral of the magnitude, and parse back to the number, the most negative one too |
| Format.RenderUnsigned | src/format.c:22-34 | the buffer filled backwards ends in the one decimal numeral of the number and is never overrun |
| Format.Builder.Put | src/format.c:6-13 | refines appending to an unbounded string: prefix in the buffer, full length in used, overflow exactly when truncated |
| Format.Builder.PutBytes | src/format.c:15-19 | appends all bytes, in order |
| Format.Builder.AddSigned | src/format.c:124-132 | appends the signed decimal of every int64_t |
| Format.Builder.AddUnsignedPadded | src/format.c:178-188 | appends the decimal padded on the left to the width |
| Format.PaddedExact | src/format.c:178-188 | for every pad character the padded text is as long as the width or the numeral, ends in the numeral, and has nothing but padding before it |
| Format.Builder.Finish | src/format.c:78-83 | what fits is in the buffer and terminated, and the length returned is that of the whole text; the terminator goes outside exactly if the buffer has size 0 |
| Format.FinishWithoutBuffer | src/format.c:68-83 | a buffer of size 0: the terminator goes outside |
| Iso8601.FormatIso8601 | src/time.c:196-211 | the buffer holds the text or its prefix, terminated, for every field value and every buffer that has room for the terminator, and only for those; for fields in range and more than 20 bytes it holds the 20 characters from which the six fields are read back |
| Iso8601.TextIsIso | src/time.c:196-211 | for every field value the text is six zero-padded decimal fields between dashes, T, colons and Z, each parsing to its field |
| Iso8601.IsoPlaces | src/time.c:196-211 | for fields in range the marks are at places 4, 7, 10, 13, 16 and 19, and the digits between them parse to year, month, day, hour, minute and second |
| Iso8601.IsoLength | src/time.c:196-211 | exactly 20 characters for years 0 to 9999 |
| Iso8601.TextOrderIsTimeOrder | src/time.c:196-211 | for years 0 to 9999 lexicographic order of the texts is chronological order |
| BufferedIo.Kernel.WriteAll | include/lightc/syscall.h:189-203 | for every kernel: a prefix is written, as long as the answers allow; a hard error comes out as the negative result whatever was written before it; otherwise the result is what was written, less than all only after a call that wrote nothing; no call is made when all is written; without hard errors everything is written |
| BufferedIo.Kernel.ReadRetry | include/lightc/syscall.h:207-213 | interruptions are skipped and the answer after them is the result; the next piece of the stream, 0 only at its end without hard errors |
| BufferedIo.Kernel.ReadAll | include/lightc/syscall.h:218-232 | for every kernel: a prefix of the stream is read, as long as the answers allow; a hard error comes out as the negative result whatever was read before it; otherwise the result is what was read, less than asked for only at the end of the stream or after a call that read nothing |
| BufferedIo.Writer.Flush | src/io.c:29-36 | everything put so far has been delivered, in order |
| BufferedIo.Writer.PutByte | src/io.c:38-44 | delivered and buffered bytes together are the concatenation of all puts |
| BufferedIo.Writer.PutString | src/io.c:46-67 | the same for strings of any length, longer than the buffer too |
| BufferedIo.Reader.Refill | src/io.c:158-173 | loses and invents nothing, and sees the end exactly when nothing is left |
| BufferedIo.Reader.ReadByte | src/io.c:175-182 | the next byte of the stream, or -1 exactly at its end |
| BufferedIo.Reader.ReadBytes | src/io.c:184-206 | the next bytes of the stream, as many as asked for or left |
| BufferedIo.Reader.ReadLine | src/io.c:208-241 | the line cut to the buffer, with the whole line and its newline consumed; -1 exactly when there is no room at all, or room for text and nothing left |
| BufferedIo.ReadLineIntoOneByte | src/io.c:208-241 | at the end of the stream a buffer of one byte gets 0 and an empty line |
| BufferedIo.LineSplits | src/io.c:208-241 | a line, its newline and what follows make up the stream |
| BufferedIo.LinesAreTheStream | src/io.c:208-241 | no line has a newline, and the lines ended by newlines are the stream, the last of which may lack its newline |
| BufferedIo.ReadLines | src/io.c:208-241 | reading lines until -1 gives the stream split at newlines, each line cut to the buffer, for buffers of at least 2 |

## Left out

- Weak memory ordering: atomics are sequentially consistent single steps; acquire, release and relaxed are not distinguished.
- Context switches, TLS registers, clone and system call trampolines: a switch is a transfer of control.
- Condition variables, once and spinlocks: they would add smaller step machines of the same kind.
- Mutex.EveryContenderServed: for schedules in which new calls and early returns of futex waits end at some point; before that there may be any number of both, since the theorem starts at any state that satisfies the invariant. Without that a schedule could run one thread through early returns for ever. The same holds of RwLock.EveryContenderServed, also for compare-and-swaps that fail for no reason, and of Barrier.EveryGenerationEnds.
- Barrier.EveryGenerationEnds: exactly `threshold` participants, as the barrier requires of its users, and at most 2^31 of them; Barrier.CoveredExactly says why. The same holds of Barrier.NoSleepPastGeneration.
- HashMap.Map.Set: what becomes of the table when a new key finds no slot is not modelled; ownership of key copies is not modelled either; iterate and destroy are left out.
- HashMap.Map.Probe: get, contains and remove each contain this loop in the source; here they share it.
- The intrusive list and the growable array: smaller than the two containers modelled.
- RingBuffer.FirstInFirstOut: one producer and one consumer, as the ring requires, and a buffer as large as the ring or none; RingBuffer.FirstInFirstOutExactly says when creation gives such a buffer.
- RingBuffer.CopiesStayInside: the buffer is as long as creation asked for; that the allocator rounds a small request up to a size class is not counted on.
- Heap.LiveBlocksDisjoint: small blocks, and pages that once in use stay so, with the same owner; large blocks are whole mappings of the kernel, see LargeCache.
- AsyncRing.Ring.Flush: the kernel consumes entries in enter calls only, as many as it is asked for at most.
- EventLoop.Loop.OnCompletion: descriptors are the kernel's contract: a new one is not open yet.
- IoLoop.IoLoop.Run: the kernel takes entries in enter calls only, and completes what it has taken in any order while the loop waits, as long as the completion ring has room; it hands out no descriptor that is in use. A wait may return without completions, as after an enter that failed. That the loop ever runs out of work is not claimed.
- Event loop worker threads, lio_loop_destroy and the socket calls of lio_tcp_serve: start-up and shut-down.
- Calendar.FromUnixFields: int64_t overflow is not modelled; integers are unbounded except where a field is narrowed.
- LargeCache.LargeHeap.Allocate: the cache lock makes each operation one step; overlapping of mappings is the kernel's contract; statistics are left out.
- HeapLayout.HeapPage.AllocateBlock: a bitmap word is modelled as its 64 bits, so count-trailing-zeros is a search for the lowest clear bit.
- Page reclaim, segment release, reallocation and heap statistics.
- SymbolLookup.FindWithGnuHash: hash functions are arbitrary parameters; the Bloom filter is skipped, as in the source; tables are well formed and the lowest load address is 0.
- Loading, relocation and constructors of libraries, and malformed tables.
- Scheduler.Scheduler.Run: no coroutine is created during a run, and each yields finitely often; at most 2^31 coroutines, so that the 32-bit sum of indices does not wrap.
- Format.Builder.Put: the length does not wrap at 2^64.
- Hexadecimal, binary and floating-point rendering.
- BufferedIo.Writer.PutString: for kernels without hard errors, and writers whose buffer could be allocated with at least one byte; after a hard error the source drops the rest of the buffer.
- BufferedIo.Reader.ReadByte: a hard error ends the stream like its end does; claimed only without hard errors.
- memcpy, memset, memcmp, sockets, signals, logging, printing, directories, arena, atexit, byte order.
