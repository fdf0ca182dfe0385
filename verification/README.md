# Verified models of OS/161 kernel algorithms

This project models the algorithmically hard parts of an OS/161 course kernel in Dafny and proves what they are for. Machine word widths, digit bases, numbers of CPUs, threads, bottles and buffer slots are parameters unless the code's own constants matter. `dafny verify dfyconfig.toml` checks everything.

Loops that work on arrays and objects whose fields change are Dafny methods and classes, proved against functions on values. Concurrent code is a transition system: each section run under a spinlock, or each line where several threads share data, is one step, and the theorems speak about every run from the initial state.

- **Multiprecision arithmetic.** `Arith`, `Digits`: powers, digit sequences and their values, bitwise or. `ProgramD`: the trial digit, the multiply-and-subtract loop with wrapped borrows, the add-back, the shifts, for a digit base 2^h. `QDivRem`: the whole of `__qdivrem`. `LongLong`: signed division, remainder and the three-product multiplication built on it.
- **Kernel heap.** `HeapPages`, `HeapState`: memory as a map from addresses to words, free lists threaded through the free blocks, page records on two linked lists, and the heap invariant. `PagerefPool`: the bitmap pool of page records. `PageAccounts`: what every page obtained is held for. `KernelHeap`: `kmalloc` and `kfree` as the class `Allocator`. `HeapChecks`: why the self-checks hold. `HeapRuns`: theorems over all runs of the effects the methods of `Allocator` promise.
- **Scheduling.** `ThreadList`: the sentinel list with nodes in the heap. `Scheduler`: run queues, wait channels, zombies, context switch, wakeup and migration over any number of CPUs. `SchedulerOrder`: where each step takes a thread, that queues are first come, first served, and how a migration proceeds among other CPUs' steps. `Migration`: one whole migration while the queues are quiet. `InterruptLevel`: interrupt levels and spinlock counts across context switches. `Synch`: semaphores, locks and condition variables.
- **Deadlock and ordered locking.** `WaitsFor`, `Hangman`: the waits-for graph and the detector that walks it. `BarOrders`, `BarProtocol`: the bartenders' sorted orders and the protocol that follows from them.
- **Copying and allocation of numbers.** `BoundedBuffer`: the producer/consumer ring. `UioMove`: scatter/gather transfers. `Bitmap`: the bit array as a set.

Four findings where the code does less than one would expect, each stated as an exact condition:

- `uiomove` bounds a step by the iovec and by `n` but not by `uio_resid`, so it moves exactly min(n, `uio_resid`) bytes if and only if n is at most `uio_resid` or `uio_resid` ends at the end of an iovec (`UioMove.ExactIffFits`, with an example in `UioMove.OvershootExample`); `uiomovezeros` also gets away with a multiple of sixteen (`UioMove.ZeroExactIffFits`).
- `kmalloc` rounds a size up to pages in 32 bits: the pages asked for cover the request if and only if it is at most 2^32 - 4096 (`KernelHeap.PagesForCovers`, with an example in `KernelHeap.PagesForWraps`).
- `freepageref` asserts that a root without a page has no bit set. The assertion fails exactly when some root before the record's own has no page but bits set (`PagerefPool.Pool.Free`), and for a record in use all 256 bits of that root are then marked (`PagerefPool.Pool.StuckMeans`). That can happen after 256 failures to get the root's page, each of which leaves its bit marked (`PagerefPool.StuckAfterFailures`), and without any failure while 256 threads have marked a bit and dropped the lock to ask for the page (`PagerefPool.StuckWhileAsking`); it cannot while no bit has leaked and no thread is asking (`PagerefPool.Pool.NeverStuck`).
- `bitmap_create` rounds its number of bits up to bytes in 32 bits: the array has room for the bits if and only if there are at most 2^32 - 8 of them, and otherwise it has no byte at all (`Bitmap.Map.constructor`).

## Model

| member | source | states |
|---|---|---|
| Digits.BitOrDisjoint | asst1-src/common/gcc-millicode/qdivrem.c:270-279 | or-ing the high part of one digit with the low part of another equals adding them when their bits are disjoint |
| ProgramD.TrialDigit | asst1-src/common/gcc-millicode/qdivrem.c:183-210 | the estimate with its goto-entered correction loop ends after at most two corrections with the largest digit whose product with the divisor's two leading digits does not exceed the dividend's three |
| ProgramD.TrialQuotient | asst1-src/common/gcc-millicode/qdivrem.c:183-210 | trial-quotient theorem: for a normalised divisor and a partial remainder below v*B, a digit passing the test is the true digit or one more |
| ProgramD.TrialIsClose | asst1-src/common/gcc-millicode/qdivrem.c:183-210 | the same on digit sequences: qhat * v exceeds the partial remainder by less than v |
| ProgramD.MultiplySubtract | asst1-src/common/gcc-millicode/qdivrem.c:211-223 | the loop of wrapped digit subtractions leaves window - qhat*v modulo B^(n+1), the final borrow tells whether that was negative, and no digit outside the window changes |
| ProgramD.AddBack | asst1-src/common/gcc-millicode/qdivrem.c:230-238 | one addition of v into the window with the carry wrapped, nothing else changed |
| ProgramD.BorrowOutcome | asst1-src/common/gcc-millicode/qdivrem.c:211-239 | a borrow out of the subtraction occurs exactly when qhat is one too large, and a single add-back then gives a remainder in 0..v-1 |
| ProgramD.EstimateDigit | asst1-src/common/gcc-millicode/qdivrem.c:182-210 | reading the digits from the arrays, the digit chosen is the true quotient digit or one more |
| ProgramD.QuotientDigit | asst1-src/common/gcc-millicode/qdivrem.c:182-240 | one iteration returns the exact quotient digit of the window and leaves its exact remainder, below the divisor, in place |
| ProgramD.Shl | asst1-src/common/gcc-millicode/qdivrem.c:270-279 | the in-place left shift multiplies the value of the digit string by 2^sh, what exceeds the string being lost |
| ProgramD.ShiftRemainder | asst1-src/common/gcc-millicode/qdivrem.c:247-258 | the denormalising loop divides the value of the digit string by 2^d exactly as integer division |
| ProgramD.ShiftedUpValue | asst1-src/common/gcc-millicode/qdivrem.c:270-279 | digit-wise shifting up, with bits carried between neighbours, is multiplication of the value |
| ProgramD.ShiftedDownValue | asst1-src/common/gcc-millicode/qdivrem.c:247-258 | digit-wise shifting down is integer division of the value |
| QDivRem.BreakDigits | asst1-src/common/gcc-millicode/qdivrem.c:112-122 | the digits taken out of a long long have its value |
| QDivRem.DivisorDigits | asst1-src/common/gcc-millicode/qdivrem.c:119-151 | skipping the divisor's leading zeros finds its length and a nonzero first digit, without losing value |
| QDivRem.DividendDigits | asst1-src/common/gcc-millicode/qdivrem.c:153-165 | skipping the dividend's leading zeros leaves as many digits as the divisor or more, without losing value |
| QDivRem.DivideByDigit | asst1-src/common/gcc-millicode/qdivrem.c:123-149 | the one-digit branch returns the exact quotient and remainder |
| QDivRem.ShortDivision | asst1-src/common/gcc-millicode/qdivrem.c:123-149 | digits divided one at a time with the remainder carried on make up the quotient of the whole |
| QDivRem.NormalisingShift | asst1-src/common/gcc-millicode/qdivrem.c:167-175 | the shift count found brings the divisor's first digit up to half the base or more without exceeding a digit |
| QDivRem.Normalise | asst1-src/common/gcc-millicode/qdivrem.c:167-175 | dividend and divisor are both multiplied by 2^d in place and the divisor's first digit is at least half the base |
| QDivRem.DividingStep | asst1-src/common/gcc-millicode/qdivrem.c:182-240 | if an iteration divides its window exactly, quotient so far times divisor plus remaining dividend stays equal to the dividend |
| QDivRem.DivideDigits | asst1-src/common/gcc-millicode/qdivrem.c:178-240 | the loop over all quotient digits leaves the exact quotient in q and the exact remainder, below the divisor, in u |
| QDivRem.ScaledDivision | asst1-src/common/gcc-millicode/qdivrem.c:167-258 | dividing the shifted operands gives the quotient of the originals and 2^d times their remainder |
| QDivRem.ReadRemainder | asst1-src/common/gcc-millicode/qdivrem.c:247-259 | what is stored through arq is the remainder in u divided by 2^d |
| QDivRem.LongDivide | asst1-src/common/gcc-millicode/qdivrem.c:153-262 | the path through Program D returns the exact quotient and remainder |
| QDivRem.QDivRem | asst1-src/common/gcc-millicode/qdivrem.c:67-263 | for every dividend and nonzero divisor, through all three paths, the result is the quotient and the remainder stored, if asked for, is the remainder |
| LongLong.TruncDivisionLaw | asst1-src/common/gcc-millicode/divdi3.c:41-62 | a pair is the truncating quotient and remainder if and only if a = b*q + r, the remainder is smaller than b in magnitude, and it is zero or has the sign of a |
| LongLong.DivDi3 | asst1-src/common/gcc-millicode/divdi3.c:44-62 | for every b other than 0 the result is a divided by b truncated toward zero, modulo the word size for the minimum value divided by -1 |
| LongLong.ModDi3 | asst1-src/common/gcc-millicode/moddi3.c:45-62 | for every b other than 0 the result is the remainder with the sign of a that goes with the truncated quotient |
| LongLong.ThreeProducts | asst1-src/common/gcc-millicode/muldi3.c:38-96 | the identity behind using three multiplications instead of four |
| LongLong.AddWords | asst1-src/common/gcc-millicode/muldi3.c:183-241 | adding two double words with the carry detected by comparison is addition modulo the double word |
| LongLong.SubtractWords | asst1-src/common/gcc-millicode/muldi3.c:183-241 | the same for subtraction with a borrow |
| LongLong.Accumulate | asst1-src/common/gcc-millicode/muldi3.c:212-240 | adding the high, middle and low products into the accumulator, carries and borrows tracked by hand, gives their sum modulo the double word |
| LongLong.LMulQ | asst1-src/common/gcc-millicode/muldi3.c:183-241 | the double word is exactly u*v for all unsigned words although intermediate sums wrap |
| LongLong.HighWord | asst1-src/common/gcc-millicode/muldi3.c:141-158 | the high word formed from the partial products is the high word of the product modulo the word size |
| LongLong.MultiplyMagnitudes | asst1-src/common/gcc-millicode/muldi3.c:117-158 | the unsigned part of the algorithm, with its early exit for zero high words, gives the product modulo the long long |
| LongLong.MulDi3 | asst1-src/common/gcc-millicode/muldi3.c:99-164 | the result is a*b modulo 2^64, read back as a signed number, for all signed operands including the minimum |
| HeapPages.BlockTypeFor | asst1-src/kern/vm/kmalloc.c:853-867 | the index of the smallest block size that holds the request; the panic exactly for requests above the largest |
| HeapPages.BlocksComplete | asst1-src/kern/vm/kmalloc.c:990-1008 | the addresses enumerated for a page are its blocks, each once, as many as the page size divided by the block size |
| HeapPages.FreeListFull | asst1-src/kern/vm/kmalloc.c:1140-1142 | a free list without repetition never exceeds the page's number of blocks and reaches it exactly when it holds every block |
| HeapState.LiveBlocksDisjoint | asst1-src/kern/vm/kmalloc.c:875-955 | live blocks never overlap, on one page or on two |
| HeapState.LiveBlocksAvoidFreeList | asst1-src/kern/vm/kmalloc.c:473-492 | no word of any free list lies inside a live block |
| HeapState.FullPage | asst1-src/kern/vm/kmalloc.c:1140-1148 | nfree reaches the number of blocks exactly when no block of the page is live |
| HeapState.ClientWriteInv | asst1-src/kern/vm/kmalloc.c:473-492 | whatever clients store inside their own blocks leaves the allocator's invariant intact |
| HeapState.AllocFromInv | asst1-src/kern/vm/kmalloc.c:922-945 | taking a page's first free block keeps the invariant and the block was not live |
| HeapState.PushBlockInv | asst1-src/kern/vm/kmalloc.c:1105-1138 | overwriting a freed block and linking it in front of its page's free list keeps the invariant |
| HeapState.UnlinkOk | asst1-src/kern/vm/kmalloc.c:824-845 | redirecting one pointer takes exactly one record off a linked list and keeps the order of the others |
| HeapState.RemovePageInv | asst1-src/kern/vm/kmalloc.c:1141-1144 | taking the record of a page without live blocks off both lists keeps the invariant |
| HeapState.AddPageInv | asst1-src/kern/vm/kmalloc.c:989-1014 | listing a fresh page with a full free list keeps the invariant |
| PagerefPool.Pool.Alloc | asst1-src/kern/vm/kmalloc.c:258-300 | the first clear bit of the first root with room is marked and counted, and nothing else; its record is returned, unless the root has no page and none could be had, and then the bit stays marked; with every root full nothing changes |
| PagerefPool.Pool.Reserve | asst1-src/kern/vm/kmalloc.c:267-288 | the part up to the point where the lock may be dropped: it finds that bit, or that every root is full, and marks it |
| PagerefPool.Pool.Resume | asst1-src/kern/vm/kmalloc.c:224-247 | the part after the lock is held again, whatever others did meanwhile: the page becomes the root's exactly if the root still has none, and the record is returned exactly if the root has a page |
| PagerefPool.Pool.FirstClear | asst1-src/kern/vm/kmalloc.c:275-297 | the word-by-word search of a root whose count is not full finds its first clear bit |
| PagerefPool.Pool.Free | asst1-src/kern/vm/kmalloc.c:305-337 | the record's bit and its root's count go down and nothing else, unless a root before its own has bits set but no page, which is exactly when the assertion fails |
| PagerefPool.Pool.StuckMeans | asst1-src/kern/vm/kmalloc.c:305-337 | for a record in use that is so exactly when some root before its own has no page, and then all that root's bits are marked |
| PagerefPool.StuckAfterFailures | asst1-src/kern/vm/kmalloc.c:267-297 | 256 failed requests on a new pool of two roots and one that succeeds: the record obtained cannot be freed |
| PagerefPool.StuckWhileAsking | asst1-src/kern/vm/kmalloc.c:224-247 | the same without a failure, while 256 threads wait for the first root's page |
| PagerefPool.Pool.NeverStuck | asst1-src/kern/vm/kmalloc.c:305-337 | while no bit has leaked and no thread is asking for a page no free can fail that assertion |
| PageAccounts.BigNotOnHeapPage | asst1-src/kern/vm/kmalloc.c:1086-1090 | an address obtained as whole pages lies on no page of blocks, so it is never taken for a subpage block |
| KernelHeap.Allocator.DoAlloc | asst1-src/kern/vm/kmalloc.c:922-953 | the code at doalloc reads the block and its successor out of the free list in memory and updates the record, all assertions holding |
| KernelHeap.Allocator.FindFree | asst1-src/kern/vm/kmalloc.c:914-920 | the walk along one size's list stops at the first page with a free block, or at its end when there is none |
| KernelHeap.Allocator.TakeFromExisting | asst1-src/kern/vm/kmalloc.c:910-955 | the first locked section allocates the head block of that page, or changes nothing when every page of the size is full |
| KernelHeap.Allocator.CarvePage | asst1-src/kern/vm/kmalloc.c:998-1008 | the loop over a fresh page threads all its blocks into one free list in memory, highest first, and writes nowhere else |
| KernelHeap.CarvedChain | asst1-src/kern/vm/kmalloc.c:998-1008 | words that link each block to the one below form the page's whole free list |
| KernelHeap.Allocator.AllocFromFresh | asst1-src/kern/vm/kmalloc.c:978-1017 | the second locked section lists a fresh page under a record not in use and allocates its highest block, the page entering the books; without a record nothing changes, and with an answer for the pool that means every root is full |
| KernelHeap.Allocator.FinishFresh | asst1-src/kern/vm/kmalloc.c:978-1017 | the same from the moment the pool's lock is held again, whatever other calls came in between: a page for the pool that is no longer needed does not enter the books |
| KernelHeap.Allocator.SubpageKmalloc | asst1-src/kern/vm/kmalloc.c:875-1018 | the block comes from the smallest size that holds the request: the head of the free list of that size's first page with a free block, and from a fresh page only when no page of the size has one; a successful call is one allocating step of a run and adds exactly one live block; a failed one changes nothing and only happens when a page or a record cannot be had |
| KernelHeap.Allocator.FillDeadbeef | asst1-src/kern/vm/kmalloc.c:45-53 | every word of the block is overwritten and no word outside it |
| KernelHeap.Allocator.FindPage | asst1-src/kern/vm/kmalloc.c:1072-1090 | the walk along the list of all pages finds the page a pointer lies in, or that it lies in none |
| KernelHeap.Allocator.FreeBlock | asst1-src/kern/vm/kmalloc.c:1105-1138 | the freed block becomes the head of its page's free list in memory, and the double-free assertion on the head holds |
| KernelHeap.Allocator.RemoveLists | asst1-src/kern/vm/kmalloc.c:824-845 | walking both lists through pointers to pointers removes the record from each and nothing else |
| KernelHeap.Allocator.UnlinkSame | asst1-src/kern/vm/kmalloc.c:830-836 | the part on the list of one size |
| KernelHeap.Allocator.UnlinkAll | asst1-src/kern/vm/kmalloc.c:838-844 | the part on the list of all pages |
| KernelHeap.Allocator.ReturnPage | asst1-src/kern/vm/kmalloc.c:1141-1148 | a page without live blocks leaves both lists and the pool and exactly that page leaves the books |
| KernelHeap.Allocator.SubpageKfree | asst1-src/kern/vm/kmalloc.c:1026-1160 | exactly the given block stops being live, its page is given back exactly if it was the last on it, a pointer off the heap's pages changes nothing, and the failing cases are exact |
| KernelHeap.PushedBlock | asst1-src/kern/vm/kmalloc.c:1105-1142 | after a block is freed its page is entirely free exactly when the block was the page's last live one; otherwise the invariant holds |
| KernelHeap.RemovedPage | asst1-src/kern/vm/kmalloc.c:1141-1148 | removing such a page restores the invariant and takes exactly its address out of the set of heap pages |
| KernelHeap.PagesForCovers | asst1-src/kern/vm/kmalloc.c:1190-1191 | the 32-bit rounding asks for enough pages exactly for sizes up to 2^32 - 4096, and for no page beyond |
| KernelHeap.PagesForWraps | asst1-src/kern/vm/kmalloc.c:1190-1191 | a size for which the pages asked for are too few |
| KernelHeap.Allocator.Kmalloc | asst1-src/kern/vm/kmalloc.c:1170-1206 | sizes from 2048 on become whole pages; smaller ones become live blocks of the smallest sufficient size, out of listed pages as long as one of that size has a free block; NULL only if then no page could be had or, for the smaller sizes, no record; earlier allocations and memory outside the fresh page are untouched and every page obtained is accounted for |
| KernelHeap.Allocator.Kfree | asst1-src/kern/vm/kmalloc.c:1212-1223 | a live block goes by one freeing step of a run, a whole-page allocation leaves the heap alone, and with either exactly the pages it alone was held for go; NULL is ignored |
| KernelHeap.BigWriteInv | asst1-src/kern/vm/kmalloc.c:1186-1199 | stores inside a whole-page allocation leave the allocator's invariant intact |
| KernelHeap.Allocator.CheckSubpage | asst1-src/kern/vm/kmalloc.c:493-568 | no assertion of the page check can fail, and its walk ends after nfree links |
| KernelHeap.Allocator.CheckSubpages | asst1-src/kern/vm/kmalloc.c:574-603 | the lists of the sizes and the list of all pages count the same, and no more than there are records |
| HeapChecks.SizeListsCountAll | asst1-src/kern/vm/kmalloc.c:574-603 | the list of all pages is the disjoint union of the lists of the sizes |
| HeapChecks.FreeListStep | asst1-src/kern/vm/kmalloc.c:533-550 | each link of a free list stays in the page, on a block boundary, and differs from its own address |
| HeapRuns.StepKeepsInv | asst1-src/kern/vm/kmalloc.c:873-1160 | every allocation, free and client store keeps the heap invariant |
| HeapRuns.RunKeepsInv | asst1-src/kern/vm/kmalloc.c:873-1160 | the invariant holds at every point of every run |
| HeapRuns.RunFromEmpty | asst1-src/kern/vm/kmalloc.c:873-1160 | so it does in every run from start-up, the state the allocator's constructor leaves |
| HeapRuns.FreshIsFirst | asst1-src/kern/vm/kmalloc.c:1010-1014 | a fresh page stands first on both its lists, with all blocks but the one allocated on its free list |
| HeapRuns.FreedIsNext | asst1-src/kern/vm/kmalloc.c:1105-1138 | a freed block of a page that stays is the first the next allocation from that page takes |
| HeapRuns.StepKeepsBlock | asst1-src/kern/vm/kmalloc.c:873-1160 | a step that neither frees nor writes a block leaves it live, in place and with the same words |
| HeapRuns.RunKeepsBlock | asst1-src/kern/vm/kmalloc.c:873-1160 | what a client stored stays until it stores again or frees the block, over any run of others' allocations, frees and stores |
| ThreadList.InsertAfterNode | asst1-src/kern/thread/threadlist.c:105-119 | four pointer writes put the node behind another and keep every next and prev mutually inverse |
| ThreadList.InsertBeforeNode | asst1-src/kern/thread/threadlist.c:125-139 | the same before another |
| ThreadList.RemoveNode | asst1-src/kern/thread/threadlist.c:145-157 | the node comes out with null links and the others stay linked in order |
| ThreadList.WalksMirror | asst1-src/kern/thread/threadlist.c:60-72 | the forward walk from the head and the backward walk from the tail visit the same nodes in opposite orders |
| ThreadList.UnlinkedIsElsewhere | asst1-src/kern/thread/threadlist.c:107-114 | a node with null links is on no list, which is what insertion asserts |
| ThreadList.List.AddHead | asst1-src/kern/thread/threadlist.c:163-170 | the sequence gains the node at its front and tl_count stays its length |
| ThreadList.List.AddTail | asst1-src/kern/thread/threadlist.c:173-180 | the sequence gains the node at its end |
| ThreadList.List.RemHead | asst1-src/kern/thread/threadlist.c:182-198 | the first node, out of the list with null links, or NULL exactly on an empty list |
| ThreadList.List.RemTail | asst1-src/kern/thread/threadlist.c:200-216 | the last node likewise |
| ThreadList.List.InsertAfter | asst1-src/kern/thread/threadlist.c:218-224 | the sequence gains the node right behind the given one |
| ThreadList.List.InsertBefore | asst1-src/kern/thread/threadlist.c:226-232 | the sequence gains the node right before the given one |
| ThreadList.List.Remove | asst1-src/kern/thread/threadlist.c:234-240 | the sequence loses exactly the given node |
| ThreadList.MoveAll | asst1-src/kern/thread/thread.c:1070-1076 | waking all moves every waiting thread to the private list in the order they waited |
| Scheduler.NextLinked | asst1-src/kern/thread/thread.c:298-309 | every step of every operation only inserts threads that are on no list, so each thread stays on at most one, once |
| Scheduler.NextKeepsInv | asst1-src/kern/thread/thread.c:497-731 | every step of fork, yield, sleep, exit, switch, idle, reap, wakeup and migration keeps the scheduler's invariant; a child may be queued on any CPU, its parent having been moved since it read its own |
| Scheduler.WhereIs | asst1-src/kern/thread/thread.c:564-731 | a thread is on exactly one list in one place, or else running on exactly one CPU |
| Scheduler.OneCpu | asst1-src/kern/thread/thread.c:647-653 | no thread is current on two CPUs |
| Scheduler.QueuedCurrent | asst1-src/kern/thread/thread.c:909-925 | a queued thread that is still current is queued on that very CPU, which is idle or switching |
| Scheduler.SwitchingThread | asst1-src/kern/thread/thread.c:569-570 | the assertions at the start of a switch: the running thread belongs to its CPU and is on no list |
| Scheduler.ReapedIsGone | asst1-src/kern/thread/thread.c:298-309 | the thread destroyed is a zombie and no CPU's current thread |
| Scheduler.QueueToTake | asst1-src/kern/thread/thread.c:884-890 | taking victims never finds the caller's queue empty, although others change queues meanwhile |
| Scheduler.VictimToPlace | asst1-src/kern/thread/thread.c:897-899 | placing victims never finds their list empty |
| Scheduler.PlacingPass | asst1-src/kern/thread/thread.c:893-942 | a pass never sends the current thread away, gives a moved thread its new CPU, and never takes a receiver past one_share |
| Scheduler.ThreadsConserved | asst1-src/kern/thread/thread.c:861-963 | only forking adds a thread and only reaping removes one |
| Scheduler.RoundUpIsShare | asst1-src/kern/thread/thread.c:881-881 | one_share is the least number of threads per CPU that covers all of them |
| SchedulerOrder.OneMover | asst1-src/kern/thread/thread.c:564-963 | each step changes at most one thread's list node, the one named for the step, and takes it to the place named |
| SchedulerOrder.LifeCycle | asst1-src/kern/thread/thread.c:564-731 | a thread falls asleep, becomes a zombie, becomes ready after a wakeup and runs by the steps meant for that, and by each of them |
| SchedulerOrder.HomeChanges | asst1-src/kern/thread/thread.c:924-931 | a thread changes its CPU only when a migration places it elsewhere, which never happens to the current thread |
| SchedulerOrder.OwnCpuOnly | asst1-src/kern/thread/thread.c:564-731 | a step changes its own CPU's record only, and the current thread only by picking one |
| SchedulerOrder.ModeAfter | asst1-src/kern/thread/thread.c:576-655 | a switch begins with sleep, exit, an idle CPU's wakeup and a yield that finds others queued, and ends with a thread picked or the CPU idle |
| SchedulerOrder.PickRunsHead | asst1-src/kern/thread/thread.c:645-655 | the thread that runs next is the one at the head of the run queue |
| SchedulerOrder.QueueAfter | asst1-src/kern/thread/thread.c:454-484 | threads join queues and channels at the end and are served from the head; only a migration takes its victims from the end |
| SchedulerOrder.OnlyHeadLeaves | asst1-src/kern/thread/thread.c:645-655 | who leaves a run queue or wait channel other than by migration was at its head |
| SchedulerOrder.FirstComeFirstServed | asst1-src/kern/thread/thread.c:454-655 | in every run a thread on a run queue or wait channel moves one place nearer the head each time it is served, and otherwise not at all |
| SchedulerOrder.RunsInTurn | asst1-src/kern/thread/thread.c:645-655 | in every run a thread at place i of a run queue that no migration takes is the one running after the queue has been served i times and once more |
| SchedulerOrder.WokenInTurn | asst1-src/kern/thread/thread.c:1032-1058 | in every run the sleeper at place i of a wait channel is woken by the wakeup after i others |
| SchedulerOrder.TakingKeepsOrder | asst1-src/kern/thread/thread.c:884-891 | taking a victim keeps the caller's queue followed by the victims as it was |
| SchedulerOrder.ReturningKeepsOrder | asst1-src/kern/thread/thread.c:944-956 | so does putting one back |
| SchedulerOrder.MigrationProgress | asst1-src/kern/thread/thread.c:861-963 | every pass of a migration is one of those left in its stage or leads to a later stage, and nothing other CPUs do puts that off |
| SchedulerOrder.Decision | asst1-src/kern/thread/thread.c:881-886 | with less than its share of what it counted a CPU stops, else it takes exactly what it has above the share |
| SchedulerOrder.TakingDone | asst1-src/kern/thread/thread.c:889-897 | as many threads are to be placed as were taken, with the share as the receivers' bound |
| SchedulerOrder.DecidesByShare | asst1-src/kern/thread/thread.c:869-886 | in every run in which no run queue changes its length during the count, the decision is by the share of all queued threads |
| SchedulerOrder.CanGoOn | asst1-src/kern/thread/thread.c:564-963 | every CPU can go on, or needs a run queue locked by a CPU that can |
| Scheduler.ReachableInv | asst1-src/kern/thread/thread.c:564-731 | the invariant holds throughout every run from boot, on any number of CPUs |
| Scheduler.NeverTwice | asst1-src/kern/thread/thread.c:564-731 | in every run no thread is current on two CPUs or queued while it runs |
| Migration.RunQueues.Count | asst1-src/kern/thread/thread.c:869-878 | the counting loop finds the caller's queue length and the total |
| Migration.RunQueues.TakeVictims | asst1-src/kern/thread/thread.c:885-891 | the victims are the tail of the caller's queue in unchanged order |
| Migration.RoomEnough | asst1-src/kern/thread/thread.c:880-885 | with the share rounded up, the other queues have room for everything above it |
| Migration.TotalCounts | asst1-src/kern/thread/thread.c:869-878 | the total counted is the number of all queued threads |
| Migration.RunQueues.FillReceiver | asst1-src/kern/thread/thread.c:893-942 | one receiver takes the next victims, skipping the current thread, until it has its share or nothing is left to send |
| Migration.RunQueues.ConsiderMigration | asst1-src/kern/thread/thread.c:861-963 | undisturbed, with the share the least number per CPU that covers all queued threads: a caller below it does nothing; another keeps exactly the share, plus its current thread if that was a victim; the other victims end up in order on the other queues, each filled to the share before the next gets any and none above it; no thread is lost or duplicated and each belongs to the CPU it is queued on |
| Migration.MigratedConserves | asst1-src/kern/thread/thread.c:861-963 | the threads queued before and after are the same, with multiplicity |
| InterruptLevel.Processor.SplRaise | asst1-src/kern/thread/spl.c:86-104 | the count goes up and interrupts go off on the first raise |
| InterruptLevel.Processor.SplLower | asst1-src/kern/thread/spl.c:106-123 | the count goes down and interrupts come on at zero |
| InterruptLevel.Processor.Splx | asst1-src/kern/thread/spl.c:131-160 | the level becomes the one asked for, the old one is returned, and the agreement of count, level and interrupts is kept |
| InterruptLevel.Processor.SpinAcquire | asst1-src/kern/thread/spinlock.c:75-122 | an acquire counts one lock and one raise, or panics exactly on a lock this CPU holds |
| InterruptLevel.Processor.SpinRelease | asst1-src/kern/thread/spinlock.c:127-142 | a release undoes both, and interrupts stay off while other locks or the level demand it |
| InterruptLevel.CrossedNesting | asst1-src/kern/thread/spl.c:63-79 | the source's example of acquires, splhigh, splx and releases that do not nest keeps interrupts off to the very end |
| InterruptLevel.NextKeepsInv | asst1-src/kern/thread/thread.c:572-617 | every step keeps the running thread's count equal to its CPU's spinlocks plus its level and every parked thread's count at two |
| InterruptLevel.HandKeepsInv | asst1-src/kern/thread/thread.c:647-653 | switching stacks fits the next thread's count to the run-queue lock it finds held |
| InterruptLevel.ForkKeepsInv | asst1-src/kern/thread/thread.c:536-541 | a new thread comes with the count two a switched-out thread has |
| InterruptLevel.NewThreadStartsLow | asst1-src/kern/thread/thread.c:741-762 | in every run a new thread starts, on whatever CPU, at the low level, without a spinlock and with interrupts on |
| InterruptLevel.LevelAfter | asst1-src/kern/thread/thread.c:572-729 | a thread's level changes by its own splx, goes high as it enters a switch and comes back as it leaves it, and by nothing else |
| InterruptLevel.CpuAfter | asst1-src/kern/thread/thread.c:572-729 | each step changes its CPU's spinlock count, its place in the switch and its current thread exactly as meant, and no other CPU's |
| InterruptLevel.LeaveRestores | asst1-src/kern/thread/thread.c:715-729 | leaving a switch gives the thread its own level, no spinlock, and interrupts to match |
| InterruptLevel.RunSafe | asst1-src/kern/thread/spl.c:86-160 | in every run interrupts are off on a CPU exactly while its current thread's count is positive |
| InterruptLevel.SwitchRestoresLevel | asst1-src/kern/thread/thread.c:572-729 | in every run a thread comes out of a switch, on whatever CPU, with the level it entered it with, no spinlock and interrupts to match |
| InterruptLevel.LevelStaysSaved | asst1-src/kern/thread/thread.c:572-729 | whatever happens while it is switched out, the level it will come out with is the one it entered with |
| Synch.WakeOneOk | asst1-src/kern/thread/thread.c:1032-1058 | a wakeup takes the thread that has slept longest and nobody else |
| Synch.SemEffect | asst1-src/kern/thread/synch.c:88-135 | V adds a unit, P takes one or adds a sleeper at the end of the channel |
| Synch.WokenInTurn | asst1-src/kern/thread/synch.c:88-135 | in every run a sleeper at place i of the channel sleeps through exactly the next i Vs and is woken by the one after |
| Synch.Semaphore.TestP | asst1-src/kern/thread/synch.c:100-118 | one locked section of P takes a unit off the count, or puts the caller at the end of the channel exactly when there is none |
| Synch.Semaphore.V | asst1-src/kern/thread/synch.c:124-135 | the count goes up by one and the thread that has waited longest leaves the channel; the assertion fails exactly when the count wraps |
| Synch.SemNextKeepsInv | asst1-src/kern/thread/synch.c:88-135 | every step keeps: while threads sleep, the count is at most the number of woken threads that have not tested again |
| Synch.SemRunSafe | asst1-src/kern/thread/synch.c:88-135 | in every run count plus completed Ps equals the initial count plus Vs, and without woken threads units and sleepers exclude each other |
| Synch.Lock.TestAcquire | asst1-src/kern/thread/synch.c:190-201 | one locked section of lock_acquire makes the caller the holder and takes it inside, or puts it at the end of the channel exactly when the lock is held |
| Synch.Lock.Release | asst1-src/kern/thread/synch.c:209-223 | the lock becomes free and the thread that has waited longest wakes |
| Synch.LockRunSafe | asst1-src/kern/thread/synch.c:184-223 | in every run at most one thread is inside, and a free lock with sleepers has a woken thread on its way |
| Synch.HeldUntilReleased | asst1-src/kern/thread/synch.c:184-223 | in every run, from an acquire that finds the lock free until its release, the acquirer is the holder and alone inside, and whoever else tries goes to sleep |
| Synch.LockTurn | asst1-src/kern/thread/synch.c:184-223 | a release frees the lock and wakes the first sleeper; an acquire adds sleepers at the end only |
| Synch.CvNextKeepsInv | asst1-src/kern/thread/synch.c:283-317 | every step of waiting, signalling and broadcasting keeps: who has let go of the lock but is not yet on the channel holds the CV's spinlock |
| Synch.SignalSeesWaiters | asst1-src/kern/thread/synch.c:301-317 | when a signal can be sent nobody is between releasing the lock and the channel; the signal takes the longest waiter and a broadcast all |
| Synch.NoMissedSignal | asst1-src/kern/thread/synch.c:283-317 | in every run a thread that released the lock inside cv_wait before a signal is on the channel or already signalled when it is sent |
| Synch.PhaseAfter | asst1-src/kern/thread/synch.c:283-317 | the parts of cv_wait follow one another, and only a signal to the first sleeper or a broadcast ends the sleep |
| Synch.CvEffect | asst1-src/kern/thread/synch.c:283-317 | cv_wait releases the lock, holds the CV's spinlock until it is on the channel, and joins it at the end; a signal takes the first and a broadcast all |
| Synch.WaitReturnsWithLock | asst1-src/kern/thread/synch.c:283-299 | in every run a thread comes out of cv_wait by acquiring the lock when it is free, and holds it then |
| Synch.SignalledInTurn | asst1-src/kern/thread/synch.c:301-309 | in every run a sleeper at place i of the channel that no broadcast wakes sleeps through exactly the next i signals |
| WaitsFor.WaitCycle | asst1-src/kern/thread/hangman.c:42-67 | if the holder of a lockable waits through others for an actor, that actor's waiting for it makes the graph cyclic |
| WaitsFor.WaitNoCycle | asst1-src/kern/thread/hangman.c:42-67 | if not, the graph stays acyclic |
| WaitsFor.AcquireKeepsAcyclic | asst1-src/kern/thread/hangman.c:131-157 | acquiring keeps it acyclic |
| WaitsFor.ReleaseKeepsAcyclic | asst1-src/kern/thread/hangman.c:159-182 | releasing keeps it acyclic |
| WaitsFor.NoReturn | asst1-src/kern/thread/hangman.c:58-67 | in an acyclic graph the walk never returns to an actor, hence ends |
| Hangman.Detector.Check | asst1-src/kern/thread/hangman.c:50-67 | the pointer-chasing loop ends and reports exactly whether the holder waits through others for the target |
| Hangman.Detector.Wait | asst1-src/kern/thread/hangman.c:109-129 | the deadlock panic exactly when the edge would close a cycle, the other panic exactly when already waiting, else the edge is added |
| Hangman.Detector.Acquire | asst1-src/kern/thread/hangman.c:131-157 | passes exactly when the actor waits for a lockable nobody holds, and turns the edge around |
| Hangman.Detector.Release | asst1-src/kern/thread/hangman.c:159-182 | passes exactly when the actor holds it and waits for nothing, and removes the edge |
| Hangman.NeverCyclic | asst1-src/kern/thread/hangman.c:50-182 | the graph is acyclic after any sequence of calls that do not panic |
| Hangman.DeadlockIffCycle | asst1-src/kern/thread/hangman.c:109-129 | after any such sequence the deadlock panic comes exactly when the new edge would make the graph cyclic |
| BarOrders.SwapRemovesOne | asst1-src/kern/asst1/bar.c:286-300 | swapping neighbours that stand the wrong way round removes exactly one inversion, the measure by which sorting ends |
| BarOrders.Order.Pass | asst1-src/kern/asst1/bar.c:287-300 | a pass permutes the order; if it swapped there are fewer inversions, if not the order is sorted |
| BarOrders.Order.Sort | asst1-src/kern/asst1/bar.c:277-302 | sorting ends for orders of any length with an ascending permutation |
| BarOrders.NeededMembers | asst1-src/kern/asst1/bar.c:310-334 | the bottles taken are those asked for, empty requests left out |
| BarOrders.NeededSorted | asst1-src/kern/asst1/bar.c:319-323 | on a sorted order the test against the previous request makes each distinct bottle be taken once, in strictly ascending order |
| BarOrders.Order.TakeBottles | asst1-src/kern/asst1/bar.c:305-336 | the locks acquired are those, in that order, remembered in the first slots of hold_bottle with NULL behind them |
| BarOrders.Order.ReturnBottles | asst1-src/kern/asst1/bar.c:337-349 | the locks released are exactly those taken, last first |
| BarOrders.ReverseReturnsAll | asst1-src/kern/asst1/bar.c:337-349 | returning in reverse returns every lock once |
| BarProtocol.WalkClimbs | asst1-src/kern/asst1/bar.c:143-154 | along the waits-for graph the bottles waited for strictly ascend |
| BarProtocol.NoCycle | asst1-src/kern/asst1/bar.c:143-154 | so the graph is acyclic in every state the invariant allows |
| BarProtocol.DetectorSilent | asst1-src/kern/asst1/bar.c:328-328 | no request for a bottle ever sets off the deadlock detector |
| BarProtocol.MixIsExclusive | asst1-src/kern/asst1/bar.c:137-156 | while mixing, a bartender holds exactly the distinct bottles its order names and nobody else holds any of them |
| BarProtocol.IdleHoldsNothing | asst1-src/kern/asst1/bar.c:153-156 | after an order everything taken has been returned |
| BarProtocol.NeverStuck | asst1-src/kern/asst1/bar.c:137-156 | behind every bartender in the middle of an order stands one that can go on, so no state is deadlocked on bottles |
| BarProtocol.OneStepNearer | asst1-src/kern/asst1/bar.c:137-156 | every step of a bartender brings the end of its order exactly one step nearer, and no step of another puts it off |
| BarProtocol.OrderTakes | asst1-src/kern/asst1/bar.c:137-156 | a new order needs the distinct bottles it names, each to be asked for, taken and returned |
| BarProtocol.OrderServed | asst1-src/kern/asst1/bar.c:137-156 | in every run an order is done exactly after three steps for each distinct bottle and three more, whatever the others do |
| BarProtocol.NextKeepsInv | asst1-src/kern/asst1/bar.c:137-156 | every step of every bartender keeps the invariant |
| BarProtocol.RunSafe | asst1-src/kern/asst1/bar.c:137-156 | in every run, with any numbers of bartenders, bottles and drinks per order, the graph is acyclic and the detector silent |
| BoundedBuffer.NextCounts | asst1-src/kern/asst1/producerconsumer.c:27-75 | every free slot and every item is announced by a semaphore or in the hands of a worker under way |
| BoundedBuffer.NextRing | asst1-src/kern/asst1/producerconsumer.c:37-42 | every step, including each write of one field, keeps the ring equal to the items sent and not yet received |
| BoundedBuffer.AdvanceReceive | asst1-src/kern/asst1/producerconsumer.c:37-42 | the item a consumer takes away is the oldest one, with both fields from the same send |
| BoundedBuffer.AdvanceSend | asst1-src/kern/asst1/producerconsumer.c:63-68 | the item a producer adds is the last one in the ring, whole |
| BoundedBuffer.NeverOverOrUnder | asst1-src/kern/asst1/producerconsumer.c:27-75 | a producer inside always has a free slot and a consumer inside always an item |
| BoundedBuffer.SemaphoresAddUp | asst1-src/kern/asst1/producerconsumer.c:27-75 | full_sem plus empty_sem plus operations under way equals the buffer size |
| BoundedBuffer.RunSafe | asst1-src/kern/asst1/producerconsumer.c:27-75 | in every run of any number of producers and consumers what comes out is a prefix of what went in |
| BoundedBuffer.PlaceAfter | asst1-src/kern/asst1/producerconsumer.c:27-75 | each step takes its worker one place further through its call and moves nobody else |
| BoundedBuffer.HistoryAfter | asst1-src/kern/asst1/producerconsumer.c:27-75 | items count as sent and as received when an index moves on, and at no other step |
| BoundedBuffer.SendsWhatItWasGiven | asst1-src/kern/asst1/producerconsumer.c:56-75 | in every run what a producer adds to the ring is the item its call was given |
| BoundedBuffer.ReturnsWhatItReceived | asst1-src/kern/asst1/producerconsumer.c:27-51 | in every run what a consumer's call returns is the item sent at the place in the order at which it received |
| BoundedBuffer.SomebodyGoesOn | asst1-src/kern/asst1/producerconsumer.c:27-75 | while a call is under way somebody can take the next step of one, so the two semaphores and the lock never deadlock |
| BoundedBuffer.SomebodyCanBegin | asst1-src/kern/asst1/producerconsumer.c:27-75 | while none is under way every producer or every consumer can begin one |
| BoundedBuffer.StartupInv | asst1-src/kern/asst1/producerconsumer.c:83-102 | the initial indices and counts establish the invariant |
| BoundedBuffer.Ring.Send | asst1-src/kern/asst1/producerconsumer.c:63-68 | on the array itself the locked part of sending appends the item |
| BoundedBuffer.Ring.Receive | asst1-src/kern/asst1/producerconsumer.c:37-42 | and the locked part of receiving takes the oldest item |
| UioMove.ExactIffFits | asst1-src/kern/lib/uio.c:58-116 | uiomove moves exactly min(n, uio_resid) bytes if and only if n is at most uio_resid or uio_resid ends at the end of an iovec |
| UioMove.OvershootExample | asst1-src/kern/lib/uio.c:60-65 | a concrete transfer that moves more than uio_resid and makes it wrap |
| UioMove.Overshoots | asst1-src/kern/lib/uio.c:60-65 | every request outside the condition moves more than uio_resid |
| UioMove.ShortIovecsPanic | asst1-src/kern/lib/uio.c:71-79 | with iovecs shorter than uio_resid the panic comes exactly when more is asked for than they describe, and as much as both allow has been moved |
| UioMove.LoopTakesFront | asst1-src/kern/lib/uio.c:58-116 | the bytes moved are the first ones the iovecs describe, zero-length iovecs skipped, and the others are left |
| UioMove.Uio.Move | asst1-src/kern/lib/uio.c:41-119 | the transfer stores or fetches the bytes moved at the concatenation of the iovecs, advances offset and uio_resid by them, and touches nothing else |
| UioMove.ScatterGather | asst1-src/kern/lib/uio.c:84-92 | what a read stores at distinct addresses is there, byte by byte, a write fetches it back, and other memory is unchanged |
| UioMove.MoveTwice | asst1-src/kern/lib/uio.c:58-116 | moving a and then b bytes leaves the counts and addresses that moving a + b would |
| UioMove.StoreTwice | asst1-src/kern/lib/uio.c:84-92 | and stores the same bytes in the same places |
| UioMove.Uio.MoveZeros | asst1-src/kern/lib/uio.c:121-145 | the zeros, sixteen at a time, refine the same specification with zero bytes |
| UioMove.ZeroExactIffFits | asst1-src/kern/lib/uio.c:121-145 | uiomovezeros is exact if and only if uiomove would be or uio_resid is a multiple of sixteen |
| UioMove.Uio.constructor | asst1-src/kern/lib/uio.c:151-164 | a uio made for kernel I/O describes the buffer and fits every request |
| Bitmap.Map.constructor | asst1-src/kern/lib/bitmap.c:56-90 | up to 2^32 - 8 bits no number is marked, the leftover bits of the last word are, and the assertions about them hold; above that, exactly, the array is empty |
| Bitmap.Map.Translate | asst1-src/kern/lib/bitmap.c:124-133 | the word and the bit in it determine the number, and the mask written out is one shifted by the bit |
| Bitmap.Map.Alloc | asst1-src/kern/lib/bitmap.c:98-121 | the least unmarked number is marked and returned, or ENOSPC exactly when all are marked |
| Bitmap.Map.FindClear | asst1-src/kern/lib/bitmap.c:105-121 | the nested search finds the first clear bit of all, and it is never a leftover bit |
| Bitmap.Map.Mark | asst1-src/kern/lib/bitmap.c:134-145 | the set gains exactly the number, and the leftover bits stay set |
| Bitmap.Map.Unmark | asst1-src/kern/lib/bitmap.c:147-158 | the set loses exactly the number, and the leftover bits stay set |
| Bitmap.Map.IsSet | asst1-src/kern/lib/bitmap.c:161-169 | true exactly for marked numbers and the leftover bits |
| Bitmap.MaskChangesOne | asst1-src/kern/lib/bitmap.c:141-157 | or-ing a mask in sets one bit and no other, and-ing its complement in clears one and no other |
| Bitmap.AllBits | asst1-src/kern/lib/bitmap.c:106-106 | a word differs from all ones exactly when one of its bits is clear |

## Left out

- QDivRem.QDivRem: does not model division by zero, which the source turns into a trap on purpose (asst1-src/common/gcc-millicode/qdivrem.c:81-89).
- KernelHeap.Allocator.SubpageKmalloc: goes through its locked sections with no other thread's call in between. TakeFromExisting, PagerefPool.Pool.Reserve and FinishFresh are the sections by themselves; each needs only what every other call keeps, and that no page is handed out twice, so calls may come between them.
- KernelHeap.Allocator.SubpageKfree: requires a pointer to the start of a block to be live, because the source checks a double free only against the head of the free list.
- KernelHeap.Allocator.Kmalloc: what alloc_kpages answers is a parameter, a run of the pages asked for that nobody holds, or 0; for sizes above 2^32 - 4096 that run is empty.
- InterruptLevel.Processor.SpinAcquire: does not model spinning; the lock is free by the time it ends. That a lock is held by one CPU at a time is assumed of the test-and-set.
- UioMove.Uio.Move: system space only; copyin and copyout, which can fail in the middle, are not part of this model, nor is a buffer that overlaps the iovecs' memory.
- Migration.RunQueues.ConsiderMigration: speaks of queues no other CPU changes meanwhile; Scheduler has the steps in which they do.
- Scheduler.NextKeepsInv: treats each pass of a loop under a run-queue lock as a step of its own, so it allows more interleavings than the lock does.
- Guard bands, labels, deadbeef checking and statistics of kmalloc are switched off in the source and not modelled.
- Failures of kmalloc inside thread_create, sem_create, lock_create, cv_create, wchan_create and bitmap_create, and the destroying of these objects.
- Spurious or early behaviour before the first CPU exists (CURCPU_EXISTS), CPU start-up, panic and shutdown of the thread system.
- Context switching in assembler, idling, interprocessor interrupts, memory barriers and the timer: steps are atomic and memory is sequentially consistent.
- The drink semaphores with which a bartender tells a customer that an order is served (asst1-src/kern/asst1/bar.c:166-187), and the queue of orders, which is the bounded buffer again.
- The byte swapping helpers, the one-line 64-bit operations, the file system, devices, system calls and user-level programs.
