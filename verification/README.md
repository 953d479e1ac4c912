# Verified models of the POSIX programs

This project models the parts of the repository that hold state, arithmetic or concurrency
worth proving something about, and proves what every run or every input guarantees:

- **hw09, the bounded blocking queue** (`ring.dfy`, `queue*.dfy`): the byte ring as a value
  and as a class over a byte array, each critical section as a function, a state machine over
  any number of threads with sleeping, woken and running callers, signals, broadcasts and
  spurious wakeups as in the `pthread_cond_wait` and `pthread_cond_signal` entries of
  POSIX.1-2017, and the object under that state machine.
- **hw01, CRC-32 and bundles** (`crc*.dfy`, `bundle.dfy`, `bundle_integrity.dfy`): the
  bitwise register, its polynomial meaning over the two-element field, its equality with the
  table-driven CRC of section 8 of RFC 1952, burst detection, the read loop, the bundle
  printer and parser, and the two programs together.
- **hw03, the accounting allocator** (`memgrind*.dfy`): headers as bytes in front of blocks,
  an allocator that may refuse, move or resize in place, the reentrancy guard, statistics
  and limits, over whole runs that also contain nested calls and user writes.
- **ex09/primes and ex09/sqrt** (`prime_list.dfy`, `primes.dfy`, `sqrt.dfy`): the linked
  list over nodes, and interleaving models of both programs.
- **hw02, the guessing game** (`guess.dfy`): the strategies, the `int` range of their sums, and
  the round-robin loop over player objects.

Machine facts shared by the modules (bytes, `size_t` wrap-around, modulus laws) are in
`machine.dfy`. `dafny verify dfyconfig.toml` checks everything.

Runs are sequences of states and labels related by a step predicate; a theorem about runs
holds for every run and every position in it. In-place code is a class or a method on an
array whose `ensures` ties the new state to a specification function; the theorems are about
those functions.

## Where the code and its contract differ

The model follows the code. These are the places where the code does not do what its header,
its tests or a reader would expect, each with its exact condition:

- Both pops copy at `write_pointer` (hw09/queue.c:242-245 and 304-308). What they return is
  `PopAsWrittenReturns`; it is the oldest element on every run exactly when the queue is full
  (`PopAsWrittenIsRightExactlyWhenFull`). The same steps with the copy at the read index
  refine a FIFO (`ReadIndexRefinesFifo`).
- `calloc` checks its limits on `size` alone, and malloc and calloc charge before they ask
  (hw03/libmemgrind.c:84-91). The limits hold over a run exactly when every calloc that reached
  the real allocator fitted the total, refused or not, and every granted one the block limit
  (`LimitsHoldExactly`); `CallocBreaksLimits` gives runs for both.
- A refused malloc or calloc stays charged, so it is reported as leaked
  (`RefusedMallocReported`); the leak report is true exactly when there was none
  (`LeakReportExact`).
- num * size and size + 16 are computed in `size_t` (hw03/libmemgrind.c:62, 91 and 131). A
  granted block has room for header and request exactly when request + 16 is below 2^64
  (`GrantHasRoomExactly`, `CallocHonouredExactly`). `CallocUnderallocates` is a run in which
  the product wraps, `MallocOverruns` one in which the header does not fit into the block.
- A consumer that wakes to `finished` leaves without another look at the list
  (ex09/primes/primes.c:83-89), so the final comparison of main can fail
  (`ItemsLeftBehind`); it holds exactly when the list is empty (`MainEqualityExactly`).
- hw02/strategy.h:15-16 gives both bounds as inclusive. C division truncates, so in a range of
  two values or more bisection never guesses a positive upper bound nor a negative lower one,
  and guesses everything else (`BisectionFindsExactly`); gameloop never draws the upper bound.
- A first sum within `int` does not keep later sums within `int` (`SumCanOverflow`). No sum of
  any game on a range leaves `int` exactly when both bounds are at most 2^30 in magnitude, and
  the range is not 2^30 alone (`SumsFitExactly`). Every secret gameloop can draw is found
  without leaving it exactly when moreover no bound is negative (`EverySecretFoundExactly`).
- gameloop prints "Failed!" whenever the counter reaches 100, also after "Correct!" in round
  100 (hw02/utils.c:104-113, `GameLoop`). For the alternating strategy playing alone on the
  range of hw02/guess.c that is the secret 49; the secret 50 is never guessed, and "Failed!"
  is printed for these two only (`AlternatingAloneFailsExactly`).
- crc32sum prints any file name; crc32check reads the line back exactly when the name is not
  empty and has no newline (`ReadsBackExactly`), and a whole bundle exactly when all its names
  are so (`RoundTripExactly`).

## Model

| member | source | states |
|---|---|---|
| `RingBuffer.StoreIsLocal` | hw09/queue.c:208-214 | a store stays inside capacity * elem_size bytes, changes only bytes of the write slot, and that slot is none of the occupied ones |
| `RingBuffer.StoreSlots` | hw09/queue.c:208-214 | slot by slot: the write slot holds the new element, every other slot is unchanged |
| `RingBuffer.StoreAppends` | hw09/queue.c:276-282 | the queued elements, oldest first, gain the new element at the end |
| `RingBuffer.ReleaseDropsOldest` | hw09/queue.c:248-250 | advancing the read index drops exactly the oldest element, which is the one the read index names |
| `RingBuffer.FetchReturns` | hw09/queue.c:241-246 | with P pushes behind a ring holding the last `size`, the slot at the write index holds push P - capacity (zero bytes before that), the slot at the read index push P - size |
| `RingBuffer.ContentsAreLastPushes` | hw09/queue.c:189-222 | the queued elements are the last `size` pushes in push order |
| `RingBuffer.CopyAtWriteIsOldestExactlyWhenFull` | hw09/queue.c:304-308 | the copy at the write index is the oldest element for all pushed values if and only if the queue is full or elements have no bytes |
| `QueueObject.Memcpy` | hw09/queue.c:208-210 | the copied range and nothing else changes |
| `QueueObject.Queue.constructor` | hw09/queue.c:64-77 | zeroed memory, all indices and counters zero, not aborted |
| `QueueObject.Queue.Insert` | hw09/queue.c:208-214 | in place, on the byte array: the ring after Store of the first elem_size bytes |
| `QueueObject.Queue.Remove` | hw09/queue.c:241-250 | in place: the ring after Release, and the caller's buffer holds the bytes at the write index followed by its own tail |
| `QueueObject.Queue.Push` | hw09/queue.c:189-222 | one critical section of queue_push: full and aborted, full and waiting on cond_push, or stored with a signal of cond_pop; NULL is refused without effect |
| `QueueObject.Queue.Pop` | hw09/queue.c:224-258 | one critical section of queue_pop with its wait or signal, and what is copied out; the buffer is untouched unless the pop succeeds |
| `QueueObject.Queue.TryPush` | hw09/queue.c:260-290 | queue_try_push: argument, lock, full and success cases with their codes, and a signal on success only |
| `QueueObject.Queue.TryPop` | hw09/queue.c:292-321 | queue_try_pop: lock, empty and success cases with their codes, the copied bytes, and a signal on success only |
| `QueueObject.Queue.Abort` | hw09/queue.c:325-337 | the aborted flag and both broadcasts, and nothing else |
| `QueueProtocol.StepKeepsInv` | hw09/queue.c:189-337 | every critical section, abort and spurious wakeup keeps ring validity, disjoint waiting sets, exact waiter counters, no lost wakeup, and nobody asleep after abort |
| `QueueProtocol.StepMatchesHistory` | hw09/queue.c:189-321 | every step keeps the ring and the counters a function of the history of calls |
| `QueueProtocol.Reachable` | hw09/queue.c:189-337 | both hold in every reachable state of every run |
| `QueueTheorems.PopAsWrittenReturns` | hw09/queue.c:224-258 | in every run a pop returns the element pushed exactly `capacity` pushes ago, zero bytes before that, and the oldest element when the queue is full |
| `QueueTheorems.FifoStepExactly` | hw09/queue.c:189-321 | a step is a step of the bounded FIFO if and only if the bytes it copied are those at the read index |
| `QueueTheorems.ReadIndexRefinesFifo` | hw09/queue.h:129-184 | with the copy at the read index every step of every run is a FIFO step on the queued sequence with the return code that state calls for, for push, pop, try_push, try_pop and abort |
| `QueueTheorems.ReadIndexPopsInPushOrder` | hw09/queue.h:143-161 | ... so the k-th completed pop receives the k-th completed push, whatever the interleaving |
| `QueueTheorems.AnyHistoryIsReached` | hw09/queue.c:189-321 | every sequence of pushes and every number of elements left is the outcome of some run |
| `QueueTheorems.PopAsWrittenIsRightExactlyWhenFull` | hw09/queue.c:242-245 | after all runs with these push and element counts the next pop is right, if and only if the queue is full or elements have no bytes |
| `QueueTheorems.NoLostWakeups` | hw09/queue.c:198-218 | sleeping poppers mean every queued element has a woken popper, dually for pushers and free slots; with nobody woken, and room for one element, poppers and pushers never sleep together |
| `QueueTheorems.AbortIsFinal` | hw09/queue.c:325-337 | after abort nobody is asleep in any later state, and each resumption lowers the number of woken threads by one |
| `QueueTheorems.WokenCanResume` | hw09/queue.c:198-206 | a woken thread always has a possible next step of its own |
| `QueueTheorems.AbortCodeHasCause` | hw09/queue.c:198-206 | a push or pop returns QUEUE_ABORT if and only if an abort has happened and it finds the queue full or empty, blocks if and only if it finds that and no abort has happened, and succeeds otherwise |
| `QueueTheorems.AbortedIffAbortHappened` | hw09/queue.c:330-330 | the flag is set exactly if some earlier step was an abort |
| `QueueTheorems.ForecastCountsCalls` | hw09/queue.c:180-185 | waiter counters equal asleep plus woken threads, and the unsigned forecast read as ssize_t equals entered pushes minus entered pops, failed and aborted calls excluded, if and only if that fits, and differs by a multiple of 2^64 otherwise |
| `QueueTheorems.RingSafety` | hw09/queue.c:208-214 | in every reachable state size <= capacity and write = (read + size) mod capacity; with capacity 0 nothing is ever stored or taken |
| `QueueTheorems.SleeperCanWake` | hw09/queue.c:204-204 | a sleeper may wake at any time without a signal |
| `QueueReplay.PushEffects` | hw09/queue.c:198-216 | what the operations recorded by a push do to the threads: a success signals cond_pop and leaves cond_push alone, blocking sleeps on cond_push, anything else does nothing |
| `QueueReplay.PopEffects` | hw09/queue.c:230-252 | the same for pops, with the conditions exchanged |
| `QueueReplay.EffectsHappen` | hw09/queue.c:216-216 | any operations can take effect, so the statements below are not empty |
| `QueueReplay.Push` | hw09/queue.c:189-222 | a call of the object, with the effect of the condition operations it recorded on whoever waits, is a push step of the protocol and keeps its invariant, lost wakeups included |
| `QueueReplay.Pop` | hw09/queue.c:224-258 | the same for pop, with the bytes it copied out |
| `QueueReplay.TryPush` | hw09/queue.c:260-290 | the same for try_push, whether the lock was free or not |
| `QueueReplay.TryPop` | hw09/queue.c:292-321 | the same for try_pop |
| `QueueReplay.NullPush` | hw09/queue.c:191-193 | a push of NULL of either kind is a step that changes nothing |
| `QueueReplay.Abort` | hw09/queue.c:325-337 | the same for abort, whose broadcasts wake everybody |
| `Crc.ReverseInvolutive` | hw01/crc.c:7-15 | the mask-and-shift reversal undoes itself |
| `Crc.ReversedBits` | hw01/crc.c:7-15 | the top n bits of the reversed word are the low n bits of the word, lowest first, for every n |
| `Crc.FinalizeInjective` | hw01/crc.c:45-48 | finalisation maps different registers to different hashes |
| `Crc.RunStream` | hw01/crc.c:22-43 | feeding two buffers one after the other is feeding their concatenation |
| `CrcBits.RunIsRunBits` | hw01/crc.c:29-40 | the word register and the register as 32 separate bits run in step |
| `CrcBits.RunLinear` | hw01/crc.c:29-40 | the register update is linear over the two-element field in register and message together |
| `CrcBits.ZeroRunKeepsNonzero` | hw01/crc.c:33-36 | feeding zero bits never turns a nonzero register into zero, so the zero-input step is invertible |
| `CrcBits.Absorb` | hw01/crc.c:32-39 | feeding up to 32 bits is xoring them into the register and then feeding zeros |
| `CrcPolynomial.UpdateIsRemainder` | hw01/crc.c:22-43 | for every register and message, the new register is the remainder, and the only one, modulo 0x104C11DB7 of register * x^n + message * x^32, bits least significant first |
| `CrcPolynomial.RemainderUnique` | hw01/crc.c:33-36 | remainders modulo the generator are unique |
| `CrcPolynomial.ProductLaws` | hw01/crc.c:33-36 | the product used in that division is multiplication of polynomials: additive, compatible with x, and the identity at 1 |
| `CrcRfc1952.LookupFeedsByte` | hw01/crc.c:30-39 | one lookup in the RFC 1952 table feeds the eight bits of a byte to the reflected register |
| `CrcRfc1952.HashIsRfc1952` | hw01/crc.c:17-48 | init, update and finalise give the CRC of section 8 of RFC 1952 for every message |
| `CrcBurst.BurstDetected` | hw01/crc.c:7-48 | different messages of equal length whose differing bits lie within 32 consecutive stream bits have different hashes |
| `CrcBurst.SameHashExactly` | hw01/crc.c:17-48 | two messages of equal length have the same hash if and only if their difference, fed to a zero register, leaves it zero |
| `CrcBurst.SameHashIsDivisible` | hw01/crc.c:33-36 | that is, if and only if the generator divides the difference times x^32 |
| `CrcBurst.GeneratorBurstUndetected` | hw01/crc.c:33-36 | 32 is the limit: messages that differ in the 33 bits of the generator, anywhere in the stream, have equal hashes |
| `CrcBurst.ShortestCollision` | hw01/crc.c:33-36 | two messages of five bytes that do |
| `CrcContext.Context.Init` | hw01/crc.c:17-20 | the initial register |
| `CrcContext.Context.Update` | hw01/crc.c:22-43 | the nested loops compute the bit-by-bit run over the first `size` bytes |
| `CrcContext.UpdateByte` | hw01/crc.c:30-39 | the inner loop feeds the bits of one byte, least significant first |
| `CrcContext.Context.Finish` | hw01/crc.c:45-48 | the finalised hash |
| `CrcContext.GetCrc32` | hw01/get_crc.c:10-34 | for every way read() splits the stream, through a reused buffer, success gives the RFC 1952 CRC of the whole stream; success exactly if the descriptor is open and no read failed |
| `Bundle.ProcessBundle` | hw01/crc32check.c:30-80 | the verdicts and the error count of the line loop, including the stop at the first invalid line |
| `Bundle.PrintSums` | hw01/crc32sum.c:26-55 | the text printed is one line per readable file, in order |
| `Bundle.TokenExactly` | hw01/crc32check.c:34-35 | strtok gives the first longest run of non-delimiters and continues after the delimiter that ends it; nothing exactly when only delimiters are left |
| `Bundle.HashTextIsRead` | hw01/crc32check.c:48-48 | spaces, an optional sign, an optional 0x and hexadecimal digits are read as that number, saturated at 64 bits, negated if signed so, truncated to 32 |
| `Bundle.OnlyHashTextIsRead` | hw01/crc32check.c:48-52 | every accepted hash has that shape, so anything else is an invalid hash |
| `Bundle.TruncatedIsModular` | hw01/crc32check.c:48-48 | negation and truncation are arithmetic modulo 2^32, and a number of 2^64 or more gives 2^32 - 1 |
| `Bundle.DigitsExactly` | hw01/crc32check.c:48-48 | which characters are hexadecimal digits, in either case, and their values |
| `Bundle.TokenOfSplit` | hw01/crc32check.c:34-35 | the converse of TokenExactly: the shape determines the token |
| `Bundle.ParseLineExactly` | hw01/crc32check.c:34-52 | a line is read as an entry if and only if what precedes its first NUL has a first word that is a hash and behind it a name |
| `Bundle.CStringExactly` | hw01/crc32check.c:34-35 | a buffer ends at its first NUL |
| `Bundle.LinesExactly` | hw01/crc32check.c:30-30 | getline cuts any text, with or without a final newline, into nonempty lines that end at newlines, and loses nothing |
| `Bundle.StopsAtInvalid` | hw01/crc32check.c:30-80 | for any lines: every line before the first invalid one gets its verdict, and the errors are the verdicts other than OK and one for the invalid line |
| `Bundle.ParsePrintedHash` | hw01/crc32check.c:48-48 | eight printed hexadecimal digits read back as the same 32-bit number |
| `Bundle.ParsePrintedLine` | hw01/crc32check.c:34-52 | a printed line whose name has no newline parses to its entry, leading and inner spaces included, and is an invalid line exactly if the name is empty |
| `Bundle.LinesOfPrint` | hw01/crc32check.c:30-30 | the lines of a printed bundle are its printed entries |
| `Bundle.RoundTrip` | hw01/crc32sum.c:44-44 | printing any list of entries with carriable names and parsing it line by line gives the same list in order |
| `Bundle.CheckOfSum` | hw01/crc32check.c:54-80 | checking a printed bundle judges every entry in order, counts exactly the mismatches, and reports none if and only if every file has its recorded hash |
| `Bundle.CutAtNewline` | hw01/crc32check.c:30-35 | the first line read from an entry whose name has a newline is the entry of the part before it |
| `Bundle.ReadsBackExactly` | hw01/crc32check.c:34-52 | for a C string name, the first line read back is the entry if and only if the name is neither empty nor broken by a newline |
| `Bundle.RoundTripExactly` | hw01/crc32check.c:30-52 | for 32-bit hashes and C string names, a whole bundle reads back as the same list if and only if no name is empty or holds a newline |
| `BundleIntegrity.SumThenCheck` | hw01/crc32check.c:62-71 | sum files on one disk and check on another: each readable file gets OK if unchanged, FAILED if damaged within 32 consecutive bits, an error if unreadable; no errors if and only if all are OK |
| `BundleIntegrity.NumberIsPositional` | hw01/crc32sum.c:44-44 | the number printed for a word is the sum of 2^k over its set bits |
| `BundleIntegrity.SumsAreCrcs` | hw01/crc32sum.c:26-55 | crc32sum prints, for every readable file in order and no other, eight hexadecimal digits whose value is the RFC 1952 CRC of its contents, a space and the name |
| `BundleIntegrity.OkExactly` | hw01/crc32check.c:54-71 | crc32check says OK if and only if the file can be read and its RFC 1952 CRC is the recorded number |
| `BundleIntegrity.ReadableConcat` | hw01/crc32sum.c:26-48 | files are taken path by path, in the order given |
| `Memgrind.DecodeEncode` | hw03/utils.c:23-27 | a size stored in the header reads back as itself |
| `MemgrindObject.Library.constructor` | hw03/libmemgrind.c:27-33 | the state after library_init |
| `MemgrindObject.Library.CheckLimits` | hw03/libmemgrind.c:186-211 | the three limit tests in order, and the declined counter on refusal |
| `MemgrindObject.Library.Malloc` | hw03/libmemgrind.c:44-72 | guarded and unguarded malloc as a function of the old state and the allocator's answer; the guard is restored |
| `MemgrindObject.Library.Calloc` | hw03/libmemgrind.c:74-102 | the same for calloc, with the limit checked on `size` and the product charged |
| `MemgrindObject.Library.Charge` | hw03/libmemgrind.c:59-71 | charge first, then ask: a refusal stays charged and counts an error |
| `MemgrindObject.Library.Realloc` | hw03/libmemgrind.c:104-155 | the same for realloc: null pointer, limits, header test, refusal, in place and moved |
| `MemgrindObject.Library.Free` | hw03/libmemgrind.c:157-184 | the same for free |
| `MemgrindObject.Library.Drive` | hw03/libmemgrind.c:44-184 | any program of calls on the freshly loaded object, with any possible answers, goes through a run of the model with exactly those calls; its headers are intact and its counters balance; it stops early only at a block without room for the header |
| `MemgrindRuns.InitialisedHeader` | hw03/utils.c:23-32 | a freshly written header states its size and passes the validity test |
| `MemgrindRuns.ResizedHeader` | hw03/libmemgrind.c:131-151 | after a realloc the header states the new size, and the check word is the one the real allocator carried along |
| `MemgrindRuns.StepKeepsHeaders` | hw03/libmemgrind.c:44-184 | every call, nested call and user write keeps all headers intact and in agreement with the caller's books |
| `MemgrindTheorems.HeadersAlwaysIntact` | hw03/libmemgrind.c:213-222 | in every heap reached without an overrun each live pointer has an intact header just before it stating the size last requested as size_t holds it, and every wrapped block is booked |
| `MemgrindTheorems.GrantHasRoomExactly` | hw03/libmemgrind.c:62-68 | in every run a block granted to malloc, calloc or realloc has room for header and request if and only if request + 16 is below 2^64, and none even for the header if and only if adding 16 to the computed size wraps |
| `MemgrindTheorems.OverrunEndsRun` | hw03/libmemgrind.c:62-68 | a block without room for the header ends the run |
| `MemgrindTheorems.HeaderOverruns` | hw03/libmemgrind.c:62-68 | a run for every first malloc or calloc that passes the limits and whose size plus 16 wraps |
| `MemgrindTheorems.MallocOverruns` | hw03/utils.c:75-80 | without limits, malloc(2^64 - 8) is granted 8 bytes for its 16-byte header |
| `MemgrindTheorems.RequestHonouredExactly` | hw03/libmemgrind.c:59-71 | a live block has the requested number of payload bytes, and a header that says so, if and only if the last request plus 16 is below 2^64 |
| `MemgrindTheorems.CallocHonouredExactly` | hw03/libmemgrind.c:88-101 | a granted calloc leaves num * size payload bytes behind its pointer if and only if num * size + 16 is below 2^64 |
| `MemgrindTheorems.CallocUnderallocates` | hw03/libmemgrind.c:89-98 | under any limits of at least 2^32, a run in which calloc(2^32, 2^32) is granted a block without payload |
| `MemgrindHistory.CallsHandOut` | hw03/libmemgrind.c:62-71 | in every run a call returns the address just behind the header of the block the real allocator gave, with the payload bytes exactly as given, and null without touching any block if there is none; the payload of a calloc is all zero |
| `MemgrindHistory.NestedPassesThrough` | hw03/libmemgrind.c:46-48 | a call behind the guard returns the very address and bytes the real allocator gave, and changes no other block and no statistic |
| `MemgrindHistory.NestedCanHappen` | hw03/libmemgrind.c:46-48 | while the guard is up any such call is handed on |
| `MemgrindHistory.WriteCanHappen` | hw03/libmemgrind.c:219-222 | the program may write any payload byte of its blocks, and that byte alone changes |
| `MemgrindHistory.HeaderlessRefused` | hw03/libmemgrind.c:122-127 | a pointer without an intact header is refused, counted as an error, and nothing else changes |
| `MemgrindTheorems.PayloadSurvivesReallocs` | hw03/libmemgrind.c:122-154 | along any part of a run that neither frees nor writes the block, the bytes below the smallest size it had are unchanged at their user offsets, across moving and in-place reallocs |
| `MemgrindAccounting.RecountShifts` | hw03/libmemgrind.c:138-149 | both branches of realloc shift used minus freed by new minus old size and the block balance by zero |
| `MemgrindAccounting.Conservation` | hw03/libmemgrind.c:44-184 | in every reachable state used minus freed is the sum of the live requests plus sizes charged to refused calls, and the block counters likewise, in size_t arithmetic; nested calls change nothing |
| `MemgrindAccounting.CountsStayExact` | hw03/libmemgrind.c:59-60 | on runs shorter than 2^64 steps the block counters have not wrapped |
| `MemgrindAccounting.LeakReportExact` | hw03/utils.c:98-110 | the leak line is the one the live blocks call for, printed exactly when there are any, with their number and total size, if and only if no malloc or calloc was charged and then refused, and the total fits size_t |
| `MemgrindAccounting.RefusedMallocReported` | hw03/libmemgrind.c:59-66 | a run of one refused malloc after which nothing is live and one block is reported |
| `MemgrindAccounting.RefusalsCounted` | hw03/libmemgrind.c:186-211 | in every reachable state `declined_allocations` counts exactly the calls the limits turned away and `errors` exactly those the real allocator refused, in size_t arithmetic |
| `MemgrindHistory.CountersExactly` | hw03/libmemgrind.c:138-149 | in every reachable state each of the four counters is, modulo 2^64, the total that calls, answers and last requested sizes add up to: charges, growths in place and moved sizes; frees, shrinkages and old sizes; charges and moves; frees and moves |
| `MemgrindHistory.DeclinedExactly` | hw03/libmemgrind.c:186-211 | a call for memory is declined if and only if its size, or by the history of the run the total or the number of allocations, would be over its limit, in size_t arithmetic |
| `MemgrindAccounting.LimitsHoldExactly` | hw03/libmemgrind.c:84-101 | over every run without wrap-around, all three limits hold in all states, every block taken at its true request, if and only if every calloc that reached the real allocator, granted or refused, fitted the total, and every granted one the block limit |
| `MemgrindAccounting.AllocateWithinLimitsExactly` | hw03/libmemgrind.c:88-96 | one charged allocation keeps the limits if and only if the total has room for it, refused or not, and a granted block is within the block limit |
| `MemgrindAccounting.LimitsHold` | hw03/libmemgrind.c:186-211 | so, without wrap-around, all three limits hold if callocs have at most one item, or for every calloc if the check is on the product |
| `MemgrindAccounting.CallocBreaksLimits` | hw03/libmemgrind.c:84-96 | runs of one calloc(3, 10) that break a limit: granted, the block limit; refused, the total |
| `PrimeList.List.constructor` | ex09/primes/list.c:21-25 | the empty list |
| `PrimeList.List.Push` | ex09/primes/list.c:47-64 | appends one fresh node and its value, or changes nothing when malloc fails; the spine stays distinct and ends at tail |
| `PrimeList.List.Unlink` | ex09/primes/list.c:66-85 | removes exactly the first node and hands it to free; false exactly on the empty list |
| `PrimeList.List.Pop` | ex09/primes/list.c:66-85 | returns the oldest value and leaves the rest in order |
| `PrimeList.List.Destroy` | ex09/primes/list.c:27-33 | terminates, the nodes freed are the nodes of the list, each exactly once, and then the list itself |
| `PrimeList.List.Drive` | ex09/primes/list.c:47-85 | over any run of pushes, failed pushes and pops, values popped followed by values left are the values pushed, in order |
| `Primes.IsPrime` | ex09/primes/primes.c:27-41 | true exactly for numbers from 2 that are no product of two factors from 2 |
| `Primes.StepConserves` | ex09/primes/primes.c:43-115 | every step of a producer, a consumer or main keeps the balance of items and their primality |
| `Primes.NothingLost` | ex09/primes/primes.c:43-115 | in every interleaving produced = consumed + popped but not counted + listed, and every item is a prime in [1000, 5000) |
| `Primes.MainEqualityExactly` | ex09/primes/primes.c:176-205 | when all threads have exited, main's equality holds if and only if the list is empty |
| `Primes.ItemsInOrder` | ex09/primes/primes.c:53-91 | items are consumed in exactly the order in which they were pushed |
| `Primes.ProducersMissNothing` | ex09/primes/primes.c:48-68 | the items a producer pushed or was refused are, in order, exactly the primes from 1000 up to its position, and its counters add up to their number |
| `Primes.PrimesInExactly` | ex09/primes/primes.c:48-50 | that sequence is increasing and holds exactly the primes of the range |
| `Primes.ItemsLeftBehind` | ex09/primes/primes.c:83-89 | a run in which every thread exits and the list is not empty |
| `Primes.NoLostWakeups` | ex09/primes/primes.c:53-91 | in every interleaving, until the end is announced, a sleeping consumer means that every listed item has a woken consumer coming for it |
| `Primes.ConsumerSteps` | ex09/primes/primes.c:78-112 | exactly when a consumer can sleep, pop the first item, leave, count or wake |
| `Primes.ProducerSteps` | ex09/primes/primes.c:48-68 | exactly when a producer can skip, push or be refused, and with which number |
| `Primes.AnnouncementWakesAll` | ex09/primes/primes.c:176-190 | the end is announced exactly once all producers are done, and its broadcast leaves nobody asleep |
| `SqrtThreads.Root` | ex09/sqrt/sqrt.c:148-152 | the descending loop finds the s with s*s <= n < (s+1)*(s+1) |
| `SqrtThreads.RootUnique` | ex09/sqrt/sqrt.c:96-98 | and there is only one |
| `SqrtThreads.WriterKeepsInv` | ex09/sqrt/sqrt.c:138-178 | every producer step keeps exclusion, the shared pair and all snapshots consistent |
| `SqrtThreads.ReaderKeepsInv` | ex09/sqrt/sqrt.c:95-126 | every consumer step does too |
| `SqrtThreads.CheckIsExact` | ex09/sqrt/sqrt.c:110-110 | the consumer's test fires exactly on the pairs that are not a root, negative values included |
| `SqrtThreads.NoErrors` | ex09/sqrt/sqrt.c:95-161 | in every interleaving with the commit writes and snapshot reads as separate steps every snapshot is a root, and no error is ever counted |
| `SqrtThreads.ReadersWriterExclusion` | ex09/sqrt/sqrt.c:100-161 | producer and consumers are never inside their sections together |
| `SqrtThreads.ConsumersGoRound` | ex09/sqrt/sqrt.c:95-126 | from the labels alone: every consumer tests, locks, reads s, reads n, unlocks and checks, over and over, so each test but the last is followed by exactly one check |
| `SqrtThreads.TestDecides` | ex09/sqrt/sqrt.c:119-122 | a test ends the loop if and only if the producer has announced its end before it |
| `SqrtThreads.LeavesExactly` | ex09/sqrt/sqrt.c:86-128 | a consumer has left if and only if its last label is a test after the announcement, so nothing follows it |
| `SqrtThreads.CheckCounts` | ex09/sqrt/sqrt.c:110-112 | from any state a check counts an error exactly when its snapshot is not a root |
| `SqrtThreads.ProducerIterates` | ex09/sqrt/sqrt.c:138-178 | the producer draws, locks, writes n, writes s and unlocks exactly as often as it has iterations, then announces the end; outside its section the shared number is the one drawn last |
| `SqrtThreads.DrawnExactly` | ex09/sqrt/sqrt.c:148-148 | which random numbers give which drawn number |
| `SqrtThreads.ConsumerCanStep` | ex09/sqrt/sqrt.c:95-126 | a consumer that has not left can go on, waiting for nothing but the writer |
| `SqrtThreads.ProducerCanStep` | ex09/sqrt/sqrt.c:138-178 | the producer can go on, waiting for nothing but readers |
| `Guess.CeilLog2Exact` | hw02/libbinary.c:31-58 | the turn bound really is the ceiling of the binary logarithm |
| `Guess.BisectOnce` | hw02/libbinary.c:39-58 | a wrong guess keeps the secret in the interval, away from the ends it cannot reach, and halves its width, rounded up |
| `Guess.BisectionKeepsBracket` | hw02/libbinary.c:31-58 | after t wrong guesses the interval still holds the secret and t halvings have been used up |
| `Guess.BisectionFinds` | hw02/libbinary.c:31-58 | the first right guess of a bracketed secret comes within 1 + ceil(log2(max - min)) own turns, and within int when both bounds are at most 2^30 in magnitude |
| `Guess.BisectionFindsExactly` | hw02/libbinary.c:31-58 | for any range with both bounds inclusive and any secret in it, the secret is ever guessed by turns that stay within int if and only if it is neither a negative lower bound nor a positive upper bound of a range of two values or more, and no turn up to the bound leaves int |
| `Guess.EverySecretFoundExactly` | hw02/strategy.h:11-18 | every secret from min to max - 1 is found in time and within int if and only if 0 <= min and max <= 2^30; every secret from min to max, as the header has it, only in a range of one value |
| `Guess.SumsFitExactly` | hw02/libbinary.c:34-36 | over every secret, with max or without, and every turn a game can reach, no bound and no sum leaves int if and only if -2^30 <= min, max <= 2^30 and min + max fits int |
| `Guess.HighSumOverflows` | hw02/libbinary.c:34-36 | beyond 2^30 the game with secret max - 1 overflows |
| `Guess.LowSumOverflows` | hw02/libbinary.c:34-36 | below -2^30 the game with secret min overflows |
| `Guess.NegativeLowEndIsMissed` | hw02/libbinary.c:36-51 | a secret that is a negative lower bound is never guessed, and the interval shrinks to it and stays |
| `Guess.PositiveHighEndIsMissed` | hw02/libbinary.c:36-51 | a secret that is a positive upper bound is never guessed |
| `Guess.SumCanOverflow` | hw02/libbinary.c:34-36 | a game whose first sum fits int and whose second, after a wrong guess, does not |
| `Guess.LinearAfter` | hw02/liblinear.c:45-57 | the state of the alternating strategy after any number of turns |
| `Guess.LinearUnguessed` | hw02/liblinear.c:35-57 | the values of the range not guessed so far are exactly those from its min to its max |
| `Guess.LinearFindsExactly` | hw02/liblinear.c:35-57 | the turn on which it first guesses the secret, and no earlier one |
| `GuessGame.Player.MakeGuess` | hw02/libbinary.c:31-37 | a bisecting guess on a non-negative range lies inside it and splits it evenly to within one; every library guesses as its specification says |
| `GuessGame.Player.Notify` | hw02/libbinary.c:39-58 | told the truth about a wrong guess, a bisecting player keeps every secret it brackets, in an interval of half the width; the alternating player flips and moves the bound chosen by the new state |
| `GuessGame.TurnOfRound` | hw02/utils.c:93-96 | in round r player r mod n takes its turn number r div n |
| `GuessGame.RoundOfTurn` | hw02/utils.c:93-96 | the guess of round t * n + j is guess number t of player j, whatever the others do |
| `GuessGame.OracleRound` | hw02/liboracle.c:36-46 | an oracle guesses the random number of the round |
| `GuessGame.GameLoop` | hw02/utils.c:85-115 | on player objects that stay within int: the returned count is the round of the first correct guess or 100; "Failed!" is printed exactly if the first 99 guesses were wrong, and together with "Correct!" exactly if the first correct guess is in round 100; a bisecting player that brackets the secret ends the game within n * (1 + ceil(log2(width))) rounds when that is at most 100 |
| `GuessGame.BisectingPlayerWins` | hw02/utils.c:92-109 | a bracketing player makes a correct guess within that many rounds, whatever the other players do, and within int on a safe range |
| `GuessGame.SafeGame` | hw02/utils.c:92-109 | with bounds of at most 2^30 in magnitude and the secret in range, every player meets what the loop asks of it |
| `GuessGame.AlternatingAlone` | hw02/utils.c:92-109 | for any range, the alternating strategy alone is wrong in exactly the rounds before the one its distance to the nearer end gives |
| `GuessGame.AlternatingAloneFailsExactly` | hw02/utils.c:109-113 | on the range 0 to 100, alone, "Failed!" is printed exactly for the secrets 49 and 50, and no guess is correct exactly for 50 |

## Left out

- pthread, dlopen, syslog, getenv, read, open and rand calls are replaced by step rules or by parameters that range over every possible answer.
- Failures of mutex and reader/writer lock calls: hw09 and ex09/primes assert that they do not happen, ex09/sqrt prints and goes on.
- A blocked push keeps its argument pointer: on resumption the protocol lets it store any bytes of the right length, which covers a caller that changes the buffer while it sleeps.
- QueueObject.Queue.Push: a call is cut at pthread_cond_wait into sections, so the wait loop itself appears as the protocol's resumed steps.
- queue_create and queue_destroy unwinding, queue_errno and queue_strerror: finite branching only.
- The size_t width of the queue's indices and counters, except in queue_forecast.
- The reads of queue_size and queue_forecast outside the mutex: they are modelled in mutex-free states.
- MemgrindObject.Library.Free: as in realloc, the header test compares the check word with the literal's address.
- MemgrindObject.Library.Realloc: the header test compares the check word with the literal's address; strcmp on any other pointer, and pointers the wrapper never returned, are undefined in C.
- What happens in memory after a header is written past its block, which is undefined in C: such a call ends the run. Several threads inside the allocator wrapper at once (libc_guard is not atomic).
- syslog text, log levels and the parsing of limits from the environment in hw03/utils.c.
- Liveness of ex09/primes: a consumer can sleep forever, so only safety is stated.
- PrimeList.List.Unlink: a freed node, and in list_destroy the freed list, is returned to the caller instead of leaving the heap.
- GuessGame.GameLoop: the calls through function pointers are a match on the library; the secret and the oracle's random numbers are parameters; what a game does after leaving int, which is undefined in C, is not modelled.
- Bundle.ProcessBundle: fdopen failure, close failures and the printed messages; the files are given as a function from names to readable hashes.
- The name "-" of crc32sum stands for standard input there and for a file in crc32check; a disk maps it like any other name.
- hw05, hw06, hw08 and the other ex directories: option parsing, signals, sockets and terminal output around system calls, which would only add easy members.
