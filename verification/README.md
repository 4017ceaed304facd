# Verified models of Cyancore's kernel and library cores

Cyancore is a bare-metal framework in C: a small kernel (Helios), hardware abstraction for a few
boards, and its own libc, libposix and math library. This project models the parts of it whose
correctness is not visible from one function body and proves what those parts are for.

| files | source modelled |
|---|---|
| `Bakery.dfy`, `BakerySafety.dfy`, `BakeryOrder.dfy`, `BakeryProgress.dfy`, `BakeryBudget.dfy`, `BakeryLiveness.dfy`, `BakeryFairness.dfy` | the bakery lock, as a transition system over N cores in which every read or write of a shared array is one step |
| `HeapChunks.dfy`, `HeapSpec.dfy`, `HeapSteps.dfy`, `Heap.dfy`, `HeapRuns.dfy` | the first-fit allocator: linked headers changed in place, and whole runs of `malloc` and `free` |
| `HeliosOrder.dfy`, `Helios.dfy` | the scheduler's ready and wait rings, as linked task control blocks |
| `Pll.dfy` | the PLL settings search and the recomputation of the clock |
| `Clint.dfy` | the 64-bit timer read through two 32-bit registers |
| `NumberText.dfy`, `NumberParse.dfy`, `NumberFormat.dfy` | `vprintf` without floating point, from the format to the digits, and the parser `atol` |
| `MemMove.dfy` | `memcpy` and `memmove` on one address space, `strlcpy` |
| `Arithmetic.dfy` | gcd, extended Euclid, `clog2`, `lcm`, `isPrime` |
| `Timespec.dfy` | POSIX time arithmetic |
| `Drivers.dfy` | the driver table and its start and exit order |
| `Quotients.dfy`, `Sequences.dfy` | helper facts used by several of the others |

Loops and updates in place are methods, proved against functions and predicates on values; the main
results are lemmas about those. A run of the bakery lock is a schedule, the sequence of cores that
take the next step, so a statement for every schedule is one for every interleaving under sequential
consistency (the source puts `arch_dmb` barriers between the phases). The two operands of `<` on
line 32 and of `==` on line 33 are read from left to right; C leaves that order open, and it does not
matter because the right operand is the core's own ticket, which no other core writes.

## Where the code does not do what it is for

Each of these is proved, with the exact condition under which the code is right.

- **Bakery tickets are bytes.** With two or more cores, 256 calls that hand over to each other end
  with two cores inside. A bound on the number of calls keeps every run safe if and only if it is at
  most 255 or there is one core (`BakeryBudget.ExclusionBudget`). Calls may be counted from the last
  moment when all cores were idle (`BakeryBudget.BusyPeriodBudget`).
- **`malloc` rounds with wrap-around.** A block is as large as its request if and only if the request
  is below SIZE_MAX - 3 or the build does not round (`HeapRuns.BlockCoversRequest`, and for every block
  held in a run `HeapRuns.HeapSafety`). On those that do, `malloc(SIZE_MAX)` on a fresh heap of more than
  two headers returns an empty block, and malloc then returns null until it is freed
  (`HeapRuns.EmptyBlock`).
- **`malloc` has no null check.** On any chunk list, its search runs off the end if and only if the
  request is not 0, the first chunk is not empty, no free chunk fits and the last chunk is free or too
  small (`HeapRuns.CrashIffNoFit`); a request for the size of the heap does it on a fresh heap
  (`HeapRuns.FreshHeapCrash`). The model has an outcome for that instead of a precondition.
- **`malloc` can hand out a block in use** if and only if no free chunk fits and the last chunk is in
  use and fits (`HeapRuns.FreshIffSound`). On the 4-byte builds this never happens
  (`HeapRuns.AlignedRunsAreSound`); on the AVR builds, which do not round, it does
  (`HeapRuns.AvrHandsOutTwice`).
- **`malloc` returns null although memory is free** when the first chunk it stops at is larger than the
  rounded request but not by more than a header: such a chunk is neither taken whole nor split, and the
  search does not go on (`HeapRuns.NullIff`). Three calls lead there on every 4-byte build, with nearly
  the whole heap free (`HeapRuns.NeedlessNull`).
- **Pausing all tasks ends if and only if the current task is not in the ready ring.** Otherwise the loop
  stays at the current task for good, after pausing the tasks before it (`Helios.Scheduler.PauseRounds`).
  helios_tasks.c:68 makes the head of the ring the current task, so after the start of the scheduler no
  task is paused at all and `helios_add_task` does not return (`Helios.Scheduler.AddTask`).
- **Pausing a task that waits links it into the wait ring a second time.** The ring survives that if and
  only if the task is alone in it (`Helios.Scheduler.SendToPause`).
- **Sending back the second of two tasks destroys the ready ring,** because its equal links make it
  look new; no other task is affected (`Helios.Scheduler.SendBackOfPrio`).
- **`multiplicative_inverse` reduces modulo the wrong number.** Its result is an inverse if and only if
  the base is 1 (`Arithmetic.MultiplicativeInverse`); the coefficient before the last line is one if
  and only if the arguments are coprime (`Arithmetic.Euclid`).
- **`clog2` of the largest unsigned long is 1;** it is the ceiling of the logarithm for all others
  (`Arithmetic.Clog2Exact`).
- **`mod` with a negative divisor** is in range if and only if the dividend is not negative or a multiple of
  the divisor (`Arithmetic.Mod`); otherwise it is below the divisor (`Arithmetic.ModBelowDivisor`), as for
  mod(-1, -2), which is -3 (`Arithmetic.ModOfMinusOne`).
- **`lcm` returns the first element of its array,** since its loop starts at the end; that is the least
  common multiple if and only if it is a multiple of the others (`Arithmetic.LcmIff`).
- **`isPrime` accepts no prime above 3:** its tests for the factors 2 and 3 are the wrong way round, and it
  accepts numbers such as 6. It is right exactly up to 3 and for the composite numbers that it refuses
  (`Arithmetic.IsPrimeRightIff`).
- **`strlcpy` returns the length of the string** if and only if there was room for one byte more than the
  string and its terminator (`MemMove.StrLcpy`); what it copies is right.
- **The count that `%d` adds to `vprintf`'s result leaves out the minus sign**
  (`NumberParse.PrintDecimal`), and `memcpy` returns the end of the destination (`MemMove.MemCpy`).
- **The comment on `driver_exit_all`** speaks of an exit order; the code goes by `sorder`, descending,
  and `eorder` is never read. The model follows the code.

## Model

| member | source | states |
|---|---|---|
| `BakerySafety.MutualExclusion` | src/lib/liblocks/bakerylock.c:7-43 | for any number of cores and every interleaving in which no ticket wraps, at most one core is between return from acquire and the call to release |
| `BakerySafety.StepKeepsInv` | src/lib/liblocks/bakerylock.c:7-43 | every single read or write keeps the protocol invariant that relates each program point to every other core |
| `BakeryOrder.FirstComeFirstServed` | src/lib/liblocks/bakerylock.c:10-35 | a core that sets its flag after another has cleared its own gets in only after that other one has been in |
| `BakeryProgress.NoDeadlock` | src/lib/liblocks/bakerylock.c:26-35 | in every state of every run, tickets that wrap included, where cores wait and none is choosing or inside, the one with the least (ticket, index) gets in by at most 6n of its own steps, from any position of its wait loop |
| `BakeryLiveness.SomeoneGetsIn` | src/lib/liblocks/bakerylock.c:7-36 | in every state of every run, tickets that wrap included, with a core in acquire and none inside, some continuation without a new call lets a core in; cores in the doorway count |
| `BakeryLiveness.FinishDoorway` | src/lib/liblocks/bakerylock.c:13-24 | a core that is choosing is never blocked: a schedule of its own steps alone takes it to its wait loop |
| `BakeryProgress.WalkIn` | src/lib/liblocks/bakerylock.c:26-35 | a waiting core that nobody blocks reaches the end of acquire alone, whatever stale values it has read, and changes nothing else |
| `BakeryBudget.FewCallsNeverWrap` | src/lib/liblocks/bakerylock.c:13-20 | tickets never exceed the calls that have drawn one, so fewer than 256 calls cannot wrap |
| `BakeryBudget.WrapBreaksExclusion` | src/lib/liblocks/bakerylock.c:20-35 | with two or more cores some run with exactly 256 calls ends with two cores inside |
| `BakeryBudget.ExclusionBudget` | src/lib/liblocks/bakerylock.c:7-43 | all runs with at most a given number of calls keep mutual exclusion if and only if there is one core or the number is at most 255 |
| `BakeryBudget.QuiescentIsInitial` | src/lib/liblocks/bakerylock.c:10-42 | when every core is idle again the lock is in its initial state |
| `BakeryBudget.BusyPeriodBudget` | src/lib/liblocks/bakerylock.c:7-43 | a lock may serve any number of calls: exclusion holds in every run in which fewer than 256 calls start between two moments when all cores are idle |
| `BakeryFairness.OvertakenOnce` | src/lib/liblocks/bakerylock.c:10-35 | while a core waits, each other core gets in at most once, and is behind it for good after that |
| `BakeryFairness.NoStarvation` | src/lib/liblocks/bakerylock.c:7-36 | in every run without a wrap, a core that has called acquire gets in after a number of fair rounds that depends on the number of cores only; a round is fair when every core that is not idle at its start has a turn in it, so cores that are idle may never call, and order and number of turns are free |
| `BakeryFairness.WaiterWithRoomGetsIn` | src/lib/liblocks/bakerylock.c:13-36 | when the tickets leave room for two more per core, a waiting core gets in after that number of fair rounds without any assumption about wrapping, because no ticket can wrap while it waits |
| `HeapChunks.TwoPassesSuffice` | src/lib/libc/malloc_lite.c:63-76 | in a coalesced list, setting one flag and running merge twice joins the whole free run around it and leaves no two free neighbours |
| `HeapChunks.MergeIdentity` | src/lib/libc/malloc_lite.c:63-76 | a pass over a coalesced list changes nothing |
| `HeapChunks.OnePassLeavesTwo` | src/lib/libc/malloc_lite.c:63-76 | one pass is not enough: of three free chunks in a row it leaves two |
| `HeapSteps.TakeLive` | src/lib/libc/malloc_lite.c:115-121 | handing out a free chunk, whole or split, adds exactly one block of the requested size to the live ones and its bytes to the usage |
| `HeapSteps.TakeKeepsTiles` | src/lib/libc/malloc_lite.c:51-61 | the chunks still cover the heap exactly, each header right after the previous payload |
| `HeapSteps.TakeKeepsCoalesced` | src/lib/libc/malloc_lite.c:112-120 | no two neighbours become free, even when the search stops on a chunk in use |
| `HeapSteps.TakeKeepsTail` | src/lib/libc/malloc_lite.c:105-120 | with rounded requests the last chunk has a size of 3 modulo 4 and stays free |
| `HeapSteps.FreedLive` | src/lib/libc/malloc_lite.c:127-143 | freeing removes exactly the freed block from the live ones; every other block keeps its address and size |
| `HeapSteps.FreedKeepsTiles` | src/lib/libc/malloc_lite.c:63-76 | joining chunks keeps the exact cover |
| `HeapSteps.FreedKeepsTail` | src/lib/libc/malloc_lite.c:63-76 | joining chunks keeps the free tail |
| `Heap.MallocLite.constructor` | src/lib/libc/malloc_lite.c:83-95 | initialises one free chunk over the whole heap |
| `Heap.MallocLite.Split` | src/lib/libc/malloc_lite.c:51-61 | the two headers written in memory describe the split list |
| `Heap.MallocLite.Merge` | src/lib/libc/malloc_lite.c:63-76 | the loop over the links is one merge pass on the list |
| `Heap.MallocLite.Search` | src/lib/libc/malloc_lite.c:112-114 | stops at the first chunk that is large enough and free or last, or runs off the list when there is none |
| `Heap.MallocLite.Malloc` | src/lib/libc/malloc_lite.c:97-125 | first fit: a returned block is that of the first chunk that is large enough for the rounded request and free, or of the last chunk if that is large enough and no free one before it is; the headers change as the list operation says, and null or the crash change nothing |
| `Heap.MallocLite.Free` | src/lib/libc/malloc_lite.c:127-143 | null and pointers outside the heap change nothing in memory; the payload address of a chunk makes the free run around that chunk one chunk |
| `Heap.MallocLite.HeapUsage` | src/lib/libc/malloc_lite.c:173-184 | size and header of every chunk in use, the last chunk left out |
| `HeapRuns.HeapSafety` | src/lib/libc/malloc_lite.c:51-143 | on every build, after every run whose malloc calls are sound: exact tiling, sizes and headers summing to the heap, full coalescing, the client's blocks are exactly the live chunks, inside the heap and disjoint, and each is as large as what was requested at its address if and only if rounding that request did not wrap (ISO/IEC 9899:2011, sections 7.22.3.3 and 7.22.3.4) |
| `HeapRuns.AlignedHeapSafety` | src/lib/libc/malloc_lite.c:83-184 | on the 4-byte builds every run is sound, the last chunk is free, heap_usage equals what the client is charged for the blocks it holds, and when the heap starts on a 4-byte boundary so does every block |
| `HeapRuns.FreshIffSound` | src/lib/libc/malloc_lite.c:97-125 | the returned address belongs to no block in use if and only if something free fits or the last chunk is free or too small |
| `HeapRuns.UsageExactIff` | src/lib/libc/malloc_lite.c:173-184 | heap_usage counts everything in use if and only if the last chunk is free |
| `HeapRuns.MallocKeepsGood` | src/lib/libc/malloc_lite.c:97-125 | one sound malloc keeps the agreement of chunk list and client |
| `HeapRuns.AlignedRunsAreSound` | src/lib/libc/malloc_lite.c:105-125 | on the 4-byte builds the last chunk is free in every reachable state, so every malloc is sound |
| `HeapRuns.FreeKeepsGood` | src/lib/libc/malloc_lite.c:127-143 | freeing any block in use keeps the agreement of chunk list and client, and the free tail |
| `HeapRuns.AllFreedIsPristine` | src/lib/libc/malloc_lite.c:83-143 | after any sound run in which everything was freed the heap is the initial single chunk |
| `HeapRuns.BlockCoversRequest` | src/lib/libc/malloc_lite.c:105-124 | on any chunk list, the chunk behind a returned pointer is as large as the request if and only if the build does not round or the rounding does not wrap, and is empty otherwise |
| `HeapRuns.EmptyBlock` | src/lib/libc/malloc_lite.c:97-125 | malloc of the largest size on a fresh heap of a 4-byte build returns an empty block, and the next malloc, of any size, returns null and changes nothing |
| `HeapRuns.CrashIffNoFit` | src/lib/libc/malloc_lite.c:99-114 | on any chunk list the search follows the null link if and only if the request is not 0, the first chunk is not empty, no free chunk is large enough and the last chunk is free or too small |
| `HeapRuns.FreshHeapCrash` | src/lib/libc/malloc_lite.c:99-114 | on a fresh heap the search follows the null link exactly for the requests whose rounded size is more than the one chunk holds, the size of the heap among them |
| `HeapRuns.StopsOnLiveIff` | src/lib/libc/malloc_lite.c:112-114 | the search stops on a chunk in use if and only if nothing free fits and the last chunk, in use, does |
| `HeapRuns.AvrHandsOutTwice` | src/platform/mega_avr/atmega328p/include/plat_mem.h:24-25 | on every build that does not round, two mallocs of all that a fresh heap holds return the same address |
| `HeapRuns.NullIff` | src/lib/libc/malloc_lite.c:102-124 | on any chunk list malloc returns null if and only if the request is 0, the first chunk is empty, or the chunk at which the search stops exceeds the rounded request by at most a header without matching it |
| `HeapRuns.NeedlessNull` | src/lib/libc/malloc_lite.c:112-121 | on every 4-byte build three calls lead to a heap on which malloc(4) returns null although the last chunk is free and large enough to be split |
| `HeliosOrder.BuiltIsStableSort` | src/visor/services/kernel/helios/helios_sched.c:284-335 | any sequence of additions gives the same tasks in ascending priority, and within each priority in the order of addition |
| `HeliosOrder.BuiltEnds` | src/visor/services/kernel/helios/helios_sched.c:284-335 | for tasks added in any order the head has the least priority and the task before it the highest |
| `HeliosOrder.LeastIsHead` | src/visor/services/kernel/helios/helios_tasks.c:452-462 | a task of strictly least priority, as the idle task that helios_run adds last, is the head, whenever it was added |
| `HeliosOrder.HeadIsFirstAdded` | src/visor/services/kernel/helios/helios_sched.c:309-313 | among several tasks of least priority the one added first is the head |
| `HeliosOrder.SentBackSorted` | src/visor/services/kernel/helios/helios_sched.c:322-331 | sending a task other than the head back, in a ring of three or more, keeps the ring sorted, keeps the tasks, and makes it the last of its equals |
| `HeliosOrder.SentBackOthers` | src/visor/services/kernel/helios/helios_sched.c:322-331 | it keeps the order of the tasks of every other priority |
| `Helios.Scheduler.FullTurn` | src/visor/services/kernel/helios/helios_sched.c:284-335 | round robin on the links: in a ring of three or more, calling send-back once for each task of a class that does not hold the head leaves the ring as it was |
| `Helios.ReadyInsertBefore` | src/visor/services/kernel/helios/helios_sched.c:125-165 | the node becomes a member of the ring in front of the reference; the second task of two ends up linked to itself |
| `Helios.ReadyUnlink` | src/visor/services/kernel/helios/helios_sched.c:196-199 | the other tasks form a ring and the node's links are null |
| `Helios.Scheduler.Walk` | src/visor/services/kernel/helios/helios_sched.c:288-308 | ends at the first task of higher priority, or at the head after a full round |
| `Helios.Scheduler.SendBackOfPrio` | src/visor/services/kernel/helios/helios_sched.c:284-335 | a new task is inserted, a linked one goes behind its equals, the head stays; the ring survives if and only if the task is not the second of two |
| `Helios.Scheduler.SendToPause` | src/visor/services/kernel/helios/helios_sched.c:234-245 | a task outside the wait ring is appended to it once and its delay set to the largest; one that is already in it, but not paused, is linked again, and the ring survives if and only if that task is alone in it; a paused task is left as it is |
| `Helios.Scheduler.SendToResume` | src/visor/services/kernel/helios/helios_sched.c:255-275 | the task leaves the wait ring, whose head stays right although the detach routine follows the wrong link, and its delay is cleared |
| `Helios.Scheduler.PauseAll` | src/visor/services/kernel/helios/helios_tasks.c:253-277 | when the current task is not in the ready ring, every ready task is paused and in the wait ring exactly once, in ring order |
| `Helios.Scheduler.PauseRounds` | src/visor/services/kernel/helios/helios_tasks.c:253-277 | for every number of rounds of the loop: it has ended if and only if the current task is not in the ring and the rounds reach every task; exactly the tasks before the current one, as far as the rounds go, are paused and listed |
| `Helios.Scheduler.ResumeAll` | src/visor/services/kernel/helios/helios_tasks.c:279-301 | terminates with an empty wait ring, every suspended task ready and the others as they were |
| `Helios.Scheduler.PauseThenResume` | src/visor/services/kernel/helios/helios_tasks.c:253-301 | pausing and resuming everything leaves the ready ring as it was, all tasks ready and nothing waiting |
| `Helios.Scheduler.AddTask` | src/visor/services/kernel/helios/helios_tasks.c:126-207 | refuses priorities out of range without a change; with the current task in the ring the call stays in the pausing loop for every number of rounds; otherwise it reports missing memory with the ring as it was, or inserts the task behind its equals, and all tasks are ready again |
| `Helios.Scheduler.AddAll` | src/visor/services/kernel/helios/helios_tasks.c:126-207 | adding any list of tasks to an empty scheduler builds the ring of BuiltIsStableSort |
| `Pll.Search` | src/platform/sifive/common_fe310/hal/prci/pll.c:34-86 | the settings found are legal, and what the divisions and products of the registers make of them is at least as close to the target as any clock that some register values reach |
| `Pll.SearchN` | src/platform/sifive/common_fe310/hal/prci/pll.c:60-82 | the wrapped and signed distances are exact, and every divider choice has been compared with |
| `Pll.VcoFits` | src/platform/sifive/common_fe310/hal/prci/pll.c:50-51 | the 32-bit product does not overflow |
| `Pll.FoundIff` | src/platform/sifive/common_fe310/hal/prci/pll.c:43-47 | some reference divider is legal if and only if the base clock is from 6000000 to 96000007 Hz |
| `Pll.GetClkIsOutput` | src/platform/sifive/common_fe310/hal/prci/pll.c:88-116 | the recomputed clock is the output of the stored settings |
| `Pll.GetClkMeans` | src/platform/sifive/common_fe310/hal/prci/pll.c:88-116 | the reported clock by quotients only: x with x * 2(n + 1) <= out < (x + 1) * 2(n + 1), or out itself, where out * 2^q <= base / (r + 1) * 2(f + 1) < (out + 1) * 2^q |
| `Pll.SetThenGet` | src/platform/sifive/common_fe310/hal/prci/pll.c:34-116 | for every 32-bit base clock and every target the reported clock is one that register values within the limits reach by these quotients, none that they reach is closer to the target, and there is one exactly for the base clocks of FoundIff |
| `Clint.ReadTime` | src/platform/sifive/common_fe310/hal/clint/clint.c:75-84 | the value is the whole counter at one instant during the call, and the loop ends within three accesses per change of the high word (RISC-V Privileged Architecture 20211203, section 3.2.1) |
| `Clint.ReadTwice` | src/platform/sifive/common_fe310/hal/clint/clint.c:75-84 | a later call does not return an earlier time |
| `Clint.UncheckedReadTears` | src/platform/sifive/common_fe310/hal/clint/clint.c:79-82 | the two halves give the counter if and only if the high word did not change between the accesses, which is what the loop tests |
| `NumberText.UnumPrint` | src/lib/libc/printf.c:65-96 | the digits of the value without a leading zero, as many pad characters before them as the width asks for and never cut; the count is what was emitted; 20 digits suffice for any 64-bit value |
| `NumberText.FillBuffer` | src/lib/libc/printf.c:68-80 | the buffer index stays in range and the buffer holds the digits backwards |
| `NumberText.PaddedValue` | src/lib/libc/printf.c:65-96 | in every radix, the digits with any number of zeros in front are digits of that radix and stand for the number that was printed |
| `NumberParse.PrintDecimal` | src/lib/libc/printf.c:147-159 | sign, padding and digits in this order fill the width together and are never cut; the digits have the value of the magnitude; the returned count is the emitted one without the sign |
| `NumberFormat.ScanWidth` | src/lib/libc/printf.c:204-215 | reads the longest run of digits after the flag as the width, and reports exactly the runs whose value overflows an int |
| `NumberFormat.WidthAsWritten` | src/lib/libc/printf.c:204-215 | a width written in decimal is read as that number, up to its last digit |
| `NumberFormat.VPrintf` | src/lib/libc/printf.c:122-244 | for every format made of pieces, the texts of the pieces as in FormatMeans; flags, widths and conversions are read as the source does, with the pad character kept from one conversion to the next |
| `NumberFormat.FormatOfPieces` | src/lib/libc/printf.c:138-242 | each piece of a format means the same wherever it stands, although the pad character is never reset: the output is that of the pieces in order, undefined from the first piece without a fitting argument or with a width that overflows |
| `NumberFormat.FormatMeans` | src/lib/libc/printf.c:138-242 | each letter by what it sends: u in radix 10, x in 16, p in 16 behind 0x, d and i with sign, c the character, s the string, numbers padded to the width; every conversion takes one argument, and the format is undefined exactly when one does not fit or a width overflows |
| `NumberFormat.UnknownFails` | src/lib/libc/printf.c:232-234 | any other letter, or the end of the format behind a %, stops with -1 after the text before it |
| `NumberParse.IntegerTraverse` | src/lib/libc/strton.c:50-57 | accumulates the longest run of digits, and reports exactly the runs whose value does not fit |
| `NumberParse.Atol` | src/lib/libc/strton.c:161-181 | the value of an optional sign and the digits after leading white space |
| `NumberParse.ParseMeans` | src/lib/libc/strton.c:161-181 | every string, split into white space, at most one sign, digits and a rest: the value of the digits, negative for a minus, 0 without digits, and undefined exactly when it exceeds the largest long |
| `NumberParse.CharClasses` | src/lib/libc/ctype.c:13-37 | white space and digits by their character codes |
| `NumberParse.PrintThenParse` | src/lib/libc/strton.c:161-181 | for every number but the least, every zero-pad width, any white space before and any non-digit after it, atol of the printed text is the number |
| `NumberFormat.PrintThenRead` | src/lib/libc/printf.c:122-244 | vprintf of a format with %0, any width an int can hold and d, between white space and text, and then atol of what was sent, gives the number back |
| `MemMove.MemCpy` | src/lib/libc/string.c:44-53 | for any overlap: the exact bytes of a forward copy; when the destination starts inside the source each byte equals the new one that far before it, so the first bytes are repeated; nothing else changes |
| `MemMove.ForwardIffSafe` | src/lib/libc/string.c:57-61 | the single wrapping comparison chooses the forward copy exactly when the destination does not start inside the source |
| `MemMove.Move` | src/lib/libc/string.c:55-81 | the destination holds the original source bytes for every overlap and nothing else changes (ISO/IEC 9899:2011, section 7.24.2.2) |
| `MemMove.StrLcpy` | src/lib/libc/string.c:133-151 | the buffer holds the string, cut off to fit and terminated, and nothing else changes; the result is the length of the string if and only if one byte more than string and terminator would have fitted, and otherwise size - 2, or the largest size for sizes 0 and 1 |
| `Arithmetic.GcdIsGreatest` | src/lib/libnmath/arithmetic/arithmetic.c:38-41 | the result divides both numbers and every common divisor divides it |
| `Arithmetic.Mod` | src/lib/libnmath/arithmetic/arithmetic.c:72-77 | for every divisor but 0 the result is congruent to the dividend; it is a residue in range if and only if the divisor is positive, the dividend is not negative, or it is a multiple of the divisor |
| `Arithmetic.ModBelowDivisor` | src/lib/libnmath/arithmetic/arithmetic.c:72-77 | otherwise the result is below the divisor |
| `Arithmetic.ModOfMinusOne` | src/lib/libnmath/arithmetic/arithmetic.c:72-77 | mod(-1, -2) is -3 |
| `Arithmetic.EuclidStep` | src/lib/libnmath/arithmetic/arithmetic.c:93-102 | one round keeps both Bezout identities and the alternating coefficients that with the remainders make up the base, so no coefficient or product exceeds it |
| `Arithmetic.Euclid` | src/lib/libnmath/arithmetic/arithmetic.c:90-102 | on exit base is the gcd, t1 times the subject is congruent to it, and t1 is an inverse modulo the base if and only if the arguments are coprime |
| `Arithmetic.MultiplicativeInverse` | src/lib/libnmath/arithmetic/arithmetic.c:90-104 | the returned number is congruent to the loop's coefficient modulo the gcd, and is an inverse if and only if the base is 1 |
| `Arithmetic.Clog2Exact` | src/lib/libnmath/arithmetic/arithmetic.c:23-26 | the least exponent of two that covers the number, for every unsigned long but the largest |
| `Arithmetic.LcmIff` | src/lib/libnmath/arithmetic/arithmetic.c:53-60 | the returned first element is the least common multiple if and only if every element divides it |
| `Arithmetic.IsPrime` | src/lib/libnmath/arithmetic/arithmetic.c:128-141 | accepts 2, 3 and exactly the multiples of 6 that no odd number from 5 up to the root divides |
| `Arithmetic.IsPrimeRightIff` | src/lib/libnmath/arithmetic/arithmetic.c:128-141 | no prime above 3 is accepted, so the answer is right if and only if the number is at most 3 or composite and refused |
| `Timespec.CompareIsOrder` | src/lib/libposix/src/posix_utils.c:276-320 | for valid times the comparison is the order of the total nanoseconds |
| `Timespec.CompareTotalOrder` | src/lib/libposix/src/posix_utils.c:276-320 | antisymmetric, transitive and total on all pointers, with null equal to itself and below everything else |
| `Timespec.Add` | src/lib/libposix/src/posix_utils.c:144-182 | succeeds exactly when the sum is representable, and is then exact |
| `Timespec.Subtract` | src/lib/libposix/src/posix_utils.c:223-274 | fails exactly when the result would be negative, otherwise exact |
| `Timespec.SubtractThenAdd` | src/lib/libposix/src/posix_utils.c:144-274 | subtracting and adding back returns the original |
| `Timespec.ToTicks` | src/lib/libposix/src/posix_utils.c:69-121 | the ceiling in ticks, or invalid exactly for invalid times and ticks outside 32 bits |
| `Timespec.AbsoluteToDeltaTicks` | src/lib/libposix/src/posix_utils.c:30-67 | timed out exactly when the deadline is past; otherwise the ceiling of the wait in ticks, or invalid exactly when it does not fit |
| `Timespec.FromNanoseconds` | src/lib/libposix/src/posix_utils.c:124-142 | floor division with a valid nanosecond part, for negative amounts too |
| `Drivers.Table.Register` | src/driver/driver.c:180-208 | the setup routine is called unless an entry that is not per-cpu has been executed; the flag is set even if setup fails |
| `Drivers.Table.Deregister` | src/driver/driver.c:219-246 | the exit routine is called unless an entry that is not per-cpu has not been executed; the flag is cleared |
| `Drivers.Table.SetupAll` | src/driver/driver.c:27-114 | the trace of setup calls is the stable sort by rank of exactly the startable entries, with the final flags; each bit of the status is set exactly when it is set for some entry |
| `Drivers.Table.ExitAll` | src/driver/driver.c:44-137 | the trace of exit calls is by descending rank, table order within a rank, of exactly the stoppable entries, with the final flags; each bit of the status is set exactly when it is set for some entry |
| `Drivers.OrUnique` | src/driver/driver.c:27-61 | only one value has the bits of given statuses, so the returned status is their "or" in any order |
| `Drivers.Table.StartTwiceThenStop` | src/driver/driver.c:105-137 | a second start runs the per-cpu entries only, and the stop after it runs every entry |
| `Drivers.TraceUnique` | src/driver/driver.c:105-137 | the sorted trace of a given set of entries is unique, so these contracts fix the traces |

## Left out

- `realloc` and `calloc`, which are made of `malloc`, `free` and copying; the heap lock and interrupt masking: the heap is used by one core.
- Payload bytes: the heap model holds headers only, so what a client writes into its own blocks, and the zeroing by `platform_init_heap`, are not in it.
- `free` of a pointer into the heap that `malloc` did not return: the source writes through it; the model requires that there is a chunk header.
- Sizes inside the heap are unbounded integers: they are below the heap's end address, which fits size_t by assumption.
- Starvation freedom of the bakery lock once a ticket has wrapped: mutual exclusion is lost then as well. Weak memory orders are not modelled.
- Helios dispatch, wait-list timing, anti-deadlock, deletion, lookup by id, `_helios_sched_insert_after` and the mutexes and semaphores: the context switch never advances the current task, so there is no run-time order to state.
- The static build of Helios: its ready head and its current task are the same control block from the start, so the first addition already stays in the pausing loop. Only the dynamic build is modelled, and there equal links of a new control block are assumed, since `helios_malloc` does not zero the memory it returns.
- `prci_pll_write_config`, lock waiting and the other MMIO code: register plumbing.
- `clint_read_time` at the wrap of the 64-bit counter: the counter is assumed not to decrease.
- Floating point in `vprintf` and `scanf`; the value `vprintf` returns, which adds up what the console driver returns, except for -1; the carriage return the console adds after a newline. An argument arrives as a number that fits its type, so l and z only skip ahead.
- `multiplicative_inverse` for a base below one or a negative subject, and the 2^31 bound of the subject itself: every other value in the loop is bounded by the base.
- `conv`, which works on floating-point arrays.
- IsPrime: the square in the loop condition is an unbounded integer; in C it can leave a long when the number is within about 2^34 of the largest one.
- The null checks of the timespec routines other than the comparison, which return an error before anything else happens, and `UTILS_TimespecAddNanoseconds`, which no modelled routine calls.
- ToTicks: for seconds whose number of ticks leaves 64 bits the product in C is undefined, so such times are excluded. Only 32-bit ticks are modelled; with 16-bit ticks (src/lib/libposix/include/posix/sys/types.h:195-199) the source cuts the number off without a check.
- `driver_setup` and `driver_exit` by name, the per-driver locks and the check-then-set window on several cores: the table is modelled on one core with routines that do not touch it.
