# Verified models of a small kernel's core

A Dafny 4.11 project about the parts of the repository that hold state and protocols: the two heap
allocators, the dining philosophers, the round-robin scheduler, the semaphores, the BMFS file system and
the conversion of numbers to digits. `dafny verify dfyconfig.toml` checks all of it.

Each component has the same shape. A module on values gives the states and steps and their laws; beside
it, where the source updates memory in place, a class with the source's own fields and loops is proved to
do exactly what the functions on values say. The laws are then about whole runs: any number of calls, or
any interleaving of processes.

| files | component |
|---|---|
| HeapCells, HeapLaws, BlockLists, ListAllocator | the first-fit list allocator: an arena of cells; two linked lists in an array of memory words |
| BuddyBook, BuddyLaws, BuddyAllocator | the buddy allocator: a book of heads and rows; intrusive doubly linked lists over an array of records |
| Philosophers, PhilosopherLaws, PhiloRounds, PhiloProcesses, PhiloMutex, SharedTable | the philosophers' protocol, one statement of one process a step; whole rounds of its processes; slots with two processes; its opening over the kernel's semaphores; the shared structure with its critical sections |
| RoundRobin, RoundRobinLaws, RoundRobinIdle, RoundRobinWaiting, RoundRobinChildren, RoundRobinEvents, SchedulerRing | the scheduler on a sequence that begins at the current node; what follows from each event; the circular list of nodes |
| Semaphores, WaitRing | one open semaphore, one atomic action a step; the ring of waiting processes |
| Bmfs, BmfsSearch, BmfsLaws, BmfsBehaviour, BmfsRuns, BmfsMisled, BmfsDisk | the directory; when the first-fit search is right; sound volumes; which volumes behave as maps from names to contents; runs of commands, and two that go wrong; the commands on a disk |
| Digits | uintToBase, ultoa and atoul |
| Arithmetic | products, quotients and sums that several of them need |

What the proofs found in the code:

- Freed buddy blocks never merge. `free` lets `addBlock` zero the size that `mergeBuddy` then tests
  (`BuddyLaws.HeadsNeverMerge`), so one small allocation splits the region for good
  (`BuddyLaws.SmallRequestFragments`). A request for more than the arena runs past the rows
  (`BuddyAllocator.Buddy.Malloc`).
- A wait that wins a semaphore's lock while the value is 0 keeps the lock, and no wait on that semaphore
  ever returns again (`Semaphores.JamsExactly`). phylo opens its mutex at 0 and starts the philosophers
  before it posts, so one that is early stops them all (`PhiloMutex.EarlyPhilosopher`). Their protocol is
  therefore proved over ideal semaphores, not over these.
- A semaphore's ring of waiters loses its oldest entry when it holds 50 (`WaitRing.FullRingLosesOldest`), and
  one process that waits on a jammed semaphore fills it alone (`WaitRing.OneWaiterOverruns`).
- Removing a philosopher breaks the exclusion of neighbours exactly when it closes the ring between two
  that are eating, and a run gets there (`PhilosopherLaws.RemovalCanSeatEatersTogether`). A philosopher is
  left hungry beside nobody who eats exactly when one is added beside it in place of its only eating
  neighbour (`PhilosopherLaws.NobodyForgotten`), and a run gets there too
  (`PhilosopherLaws.AdditionCanLeaveOneHungry`); but no run deadlocks (`PhilosopherLaws.NeverDeadlocked`).
- A philosopher that is removed and asked for again before its process has left has two processes, which can
  both take its forks (`PhiloProcesses.ForksTakenTwice`). As long as that does not happen the laws hold of
  processes as they do of slots (`PhiloProcesses.OpenedCrowdIsTable`).
- With the scheduler disabled, `schedule` returns the stack pointer of the last save, not that of the
  interruption (`RoundRobinLaws.DisabledTickResumesStale`), and a run gets there
  (`RoundRobinLaws.StaleIsReached`).
- `processReady` of the current process stops the count of its quanta, and nobody else runs any more
  (`RoundRobinWaiting.ReadyCurrentStarves`).
- `killProcess` takes the child off the parent of the current process, so child counts go wrong exactly when
  that is not the parent of the one killed (`RoundRobinChildren.ChildrenCounted`), as when a process kills its
  own child (`RoundRobinChildren.OwnChildMiscounted`).
- BMFS `create` subtracts without sign and takes a deleted record for the last file on the disk. For any
  directory it is right exactly under a guard on the directory and the request
  (`BmfsSearch.RequestExactly`). In runs from a format no file is empty, so the subtraction does no harm
  (`BmfsRuns.NeverStepsBack`), and the volume behaves as a map from names to contents exactly as long as every
  create meets a guard about deleted records and full directories (`BmfsRuns.VolumeIsMap`). Runs that break it
  are easy to reach: a delete in a row of files (`BmfsMisled.DeleteInRowExactly`), and a delete of the first
  of 64 files, after which the next create cuts off all the others (`BmfsMisled.FullRowCutOffExactly`).
- The list allocator's counter falls 24 bytes short for each `malloc` that hands out a whole free block
  (`HeapLaws.CountersOverRuns`), as a first `malloc` can (`HeapLaws.WholeIsReached`).
- `atoul` keeps its result in an `int`, so it reads back what `ultoa` wrote for exactly two ranges
  (`Digits.ReadsBack`).

## Model

| member | source | states |
|---|---|---|
| HeapCells.TilesArena | Kernel/MemoryManager.c:187-314 | every byte of the arena lies in the header or payload of exactly one block of the two lists |
| HeapCells.BlocksInside | Kernel/MemoryManager.c:187-314 | no block reaches outside the arena |
| HeapLaws.RunKeeps | Kernel/MemoryManager.c:208-314 | after any run of malloc and free the arena has the same extent, its cells have word-sized sizes from an aligned start, and no two neighbours are free |
| HeapLaws.MallocTakesLowestExtent | Kernel/MemoryManager.c:208-229 | NULL exactly if size is 0 or no free extent of header plus rounded size exists; otherwise the pointer is that of the lowest such extent |
| HeapLaws.ExtentInOneCell | Kernel/MemoryManager.c:304-313 | in canonical form every free extent lies inside a single free block, so looking at blocks one by one misses none |
| HeapLaws.MallocAddsBlock | Kernel/MemoryManager.c:231-257 | a success adds exactly one live block, at the returned pointer, of at least the rounded size and less than a minimal block more, with all other live blocks as they were |
| HeapLaws.RequestHonoured | Kernel/MemoryManager.c:210-215 | the block handed out reaches the request if and only if size is at most 2^64 - 8 |
| HeapLaws.MallocExactly | Kernel/MemoryManager.c:208-257 | in numbers, for the n that is size rounded up to a multiple of 8 in 64 bits: NULL exactly if no free extent of 24 + n bytes exists; otherwise the lowest one is taken, of exactly n bytes with the rest a free cell if its cell has n + 124, and else the whole cell |
| HeapLaws.FindLiveMeaning | Kernel/MemoryManager.c:264-275 | the search for the block of a pointer succeeds exactly for the payload addresses of live blocks |
| HeapLaws.FreeRemovesBlock | Kernel/MemoryManager.c:260-298 | free takes away exactly the live block at its pointer, and changes nothing for any other pointer |
| HeapLaws.CoalesceRefines | Kernel/MemoryManager.c:304-313 | the walk along the free list joins exactly the free cells that are neighbours in the arena |
| HeapLaws.CoalesceShape | Kernel/MemoryManager.c:304-313 | the walk leaves no two free neighbours and the extent unchanged |
| HeapLaws.FreeUndoesMalloc | Kernel/MemoryManager.c:208-314 | freeing what malloc just returned restores the arena; the counters come back unless a whole block had been handed out, when they stay a header short |
| HeapLaws.ReleasingAllRestores | Kernel/MemoryManager.c:260-314 | releasing all live blocks, in any order and among any other releases, leaves the one initial block |
| HeapLaws.CountersAddUp | Kernel/MemoryManager.c:200-202 | allocated + free = total modulo 2^64 |
| HeapLaws.CountersOverRuns | Kernel/MemoryManager.c:200-302 | over every run the counters add up, and allocated is the live blocks with headers plus 24 less 24 for each malloc that did not split |
| HeapLaws.CounterExactWhenSplit | Kernel/MemoryManager.c:231-255 | allocated is exact, up to the first header, if and only if no malloc of the run handed out a whole block |
| HeapLaws.WholeIsReached | Kernel/MemoryManager.c:231-255 | in a region of 48 bytes the first malloc, of 24, hands out a whole block, and allocated is 24 short |
| ListAllocator.Allocator.Initialize | Kernel/MemoryManager.c:187-206 | the status for each bad region, and otherwise an arena of one free block that begins 16 bytes in and is as long as the region |
| ListAllocator.Allocator.FindFit | Kernel/MemoryManager.c:218-225 | the walk stops at the first block of the free list that is large enough |
| ListAllocator.Allocator.SplitBlock | Kernel/MemoryManager.c:232-243 | cuts the block in the list exactly if the rest makes a block, writing only inside it |
| ListAllocator.Allocator.TakeBlock | Kernel/MemoryManager.c:244-255 | the block leaves the free list and heads the allocated list, both still linked as described |
| ListAllocator.Allocator.TakeFirst | Kernel/MemoryManager.c:217-255 | the two lists after the search, the cut and the move |
| ListAllocator.Allocator.Malloc | Kernel/MemoryManager.c:208-258 | the linked lists in memory are those of the abstract malloc, the pointer is its pointer, and no byte of a live payload or outside the arena is written |
| ListAllocator.Allocator.FindTaken | Kernel/MemoryManager.c:266-272 | finds the block on the allocated list, or that it is not there |
| ListAllocator.Allocator.Untake | Kernel/MemoryManager.c:277-282 | the allocated list without that block |
| ListAllocator.Allocator.FindPlace | Kernel/MemoryManager.c:285-290 | the position that keeps the free list in address order |
| ListAllocator.Allocator.LinkFree | Kernel/MemoryManager.c:292-298 | the free list with the block at that position |
| ListAllocator.Allocator.Absorb | Kernel/MemoryManager.c:307-309 | one block in place of two that touch |
| ListAllocator.Allocator.MergeNeighbours | Kernel/MemoryManager.c:304-313 | the free list is what the recursive joining of touching blocks gives |
| ListAllocator.Allocator.ReturnBlock | Kernel/MemoryManager.c:277-298 | the block moves from one list to its place in the other |
| ListAllocator.Allocator.FreeTaken | Kernel/MemoryManager.c:277-313 | the two lists after a block is returned and the free list merged |
| ListAllocator.Allocator.Free | Kernel/MemoryManager.c:260-314 | the memory realises the abstract free, NULL included, and spares all payloads that stay live |
| ListAllocator.Allocator.FreePointer | Kernel/MemoryManager.c:263-313 | the same for a pointer that is not NULL |
| ListAllocator.Allocator.GetInfoMem | Kernel/MemoryManager.c:318-322 | the three counters are those the laws are about |
| BuddyBook.HalveKeeps | Kernel/MemoryManager.c:143-157 | splitting keeps tiling, alignment, rows and sizes |
| BuddyBook.PopKeeps | Kernel/MemoryManager.c:125-141 | taking a block off its row keeps the book valid |
| BuddyBook.PushKeeps | Kernel/MemoryManager.c:110-123 | giving a live block back keeps the book valid |
| BuddyBook.OtherHalfIsBuddy | Kernel/MemoryManager.c:100-108 | for a block aligned to its size the record computed is its buddy: the two are the halves of one aligned block of the next level |
| BuddyBook.BuddyUnique | Kernel/MemoryManager.c:100-108 | a block has only one buddy, and is the buddy of its buddy |
| BuddyLaws.Run | Kernel/MemoryManager.c:53-157 | every run of malloc and free keeps the book valid: heads tile the arena, each aligned to its size, each row lists exactly the free heads of its level, only live heads carry a size |
| BuddyLaws.InitialValid | Kernel/MemoryManager.c:32-47 | the book that initialisation leaves is valid |
| BuddyLaws.LevelIsLeast | Kernel/MemoryManager.c:54-57 | the level is the least whose blocks are as long as the request |
| BuddyLaws.LevelInBytes | Kernel/MemoryManager.c:54-57 | a request of more than half of 512 * 2^l bytes and at most all is of level l |
| BuddyLaws.CascadeRows | Kernel/MemoryManager.c:68-70 | splitting down leaves one new free block on every level between and two on the lowest |
| BuddyLaws.MallocRows | Kernel/MemoryManager.c:53-76 | malloc in closed form: the least non-empty row loses its first block and each level from the request's up to it gains its upper half |
| BuddyLaws.MallocServes | Kernel/MemoryManager.c:59-75 | NULL exactly if no free head of the level or above exists; otherwise a head of that level, aligned to its own size, that was free before |
| BuddyLaws.FreeOfDeadIsNothing | Kernel/MemoryManager.c:82-83 | free changes nothing if and only if it is not given a live head |
| BuddyLaws.FreeUndoesMalloc | Kernel/MemoryManager.c:53-87 | freeing what malloc just returned restores the book if and only if malloc did not have to split |
| BuddyLaws.HeadsNeverMerge | Kernel/MemoryManager.c:85-181 | over every run a head stays a head and its level never rises |
| BuddyLaws.SmallRequestFragments | Kernel/MemoryManager.c:110-181 | after one small malloc and its free nothing is live, yet a request for the whole region fails, then and after any further calls |
| BuddyLaws.StepMovesBytes | Kernel/MemoryManager.c:121-140 | malloc adds the size of its level to the live bytes if it serves, free takes off the size of a live block |
| BuddyLaws.LiveBytesAreUnits | Kernel/MemoryManager.c:138-139 | the sizes in the records add up to 512 times the units in live blocks, never more than the arena |
| BuddyAllocator.Buddy.AddBlock | Kernel/MemoryManager.c:110-123 | the record heads the doubly linked list of its level, all others as before, its size 0 and the counters moved |
| BuddyAllocator.Buddy.RemoveBlock | Kernel/MemoryManager.c:125-141 | the record is on no list, the lists around it are intact, its size is that of its level and the counters moved |
| BuddyAllocator.Buddy.Clear | Kernel/MemoryManager.c:32-41 | all records zero and all rows NULL |
| BuddyAllocator.Buddy.GetBuddy | Kernel/MemoryManager.c:100-108 | the other half of the aligned block of the next level that the block is a half of |
| BuddyAllocator.Buddy.SplitBlock | Kernel/MemoryManager.c:143-157 | the book after halving the first block of the row, or -1 and no change |
| BuddyAllocator.Buddy.Initialize | Kernel/MemoryManager.c:19-50 | -1 for each bad region, otherwise the whole arena is one free block |
| BuddyAllocator.Buddy.FloorLog2 | Kernel/MemoryManager.c:89-94 | the shift loop computes the logarithm |
| BuddyAllocator.Buddy.Malloc | Kernel/MemoryManager.c:53-76 | the linked rows realise the abstract malloc and the pointer is the chosen block's, or NULL; it faults exactly for a size above the arena |
| BuddyAllocator.Buddy.Serve | Kernel/MemoryManager.c:59-75 | the same for the level of the request, once that is a level of the arena |
| BuddyAllocator.Buddy.FindRow | Kernel/MemoryManager.c:59-66 | the least non-empty row from the level on, or the level count |
| BuddyAllocator.Buddy.SplitDown | Kernel/MemoryManager.c:68-70 | the loop of splits is the cascade |
| BuddyAllocator.Buddy.TakeFirst | Kernel/MemoryManager.c:73-75 | the first block of the row is taken |
| BuddyAllocator.Buddy.Free | Kernel/MemoryManager.c:78-87 | the abstract free for a pointer on a block boundary, nothing otherwise |
| BuddyAllocator.Buddy.MergeBuddy | Kernel/MemoryManager.c:159-181 | called with a zero size it changes nothing; what follows its guards is unreachable |
| BuddyAllocator.Buddy.GetInfoMem | Kernel/MemoryManager.c:318-322 | allocated is the sum of the live block sizes, and allocated + free = total modulo 2^64 |
| Philosophers.Left | Userland/uCodeModule/phylo.c:10 | the neighbour before on the ring, wrapping at 0 |
| Philosophers.Right | Userland/uCodeModule/phylo.c:11 | the neighbour after on the ring, wrapping at the end |
| Philosophers.Converse | Userland/uCodeModule/phylo.c:10-11 | left and right are converse on a ring of any size |
| Philosophers.InitialInv | Userland/uCodeModule/phylo.c:121-150 | the table as opened satisfies the invariant, main holding the mutex |
| Philosophers.StepKeepsInv | Userland/uCodeModule/phylo.c:37-119 | every statement of every process keeps: the mutex is a lock with one holder, places and modes agree, and hungry_lock[i] plus a post under way is 1 exactly for an eater not past its wait |
| PhilosopherLaws.OnlyHolderWrites | Userland/uCodeModule/phylo.c:47-66 | while a philosopher holds the mutex, no step of another process changes a mode, the count, or the holder |
| PhilosopherLaws.StepApart | Userland/uCodeModule/phylo.c:37-119 | a step keeps all neighbours from both eating, if and only if it is not a removal between two eaters |
| PhilosopherLaws.NeighboursNeverEatTogether | Userland/uCodeModule/phylo.c:37-119 | over every run from the opening, neighbours are never both eating if and only if no removal in it closes the ring on two eaters |
| PhilosopherLaws.AdditionsKeepApart | Userland/uCodeModule/phylo.c:37-107 | if nobody is removed neighbours are never both eating, with no condition on the run |
| PhilosopherLaws.ForksApart | Userland/uCodeModule/phylo.c:54-60 | a philosopher between take_fork and line 60 has no neighbour in that span |
| PhilosopherLaws.TokenValues | Userland/uCodeModule/phylo.c:43-81 | mutex, hungry_lock and think_unlock are 0 or 1, and with the mutex free a hungry_lock is 1 exactly for an eater at its wait |
| PhilosopherLaws.LeavingWasParked | Userland/uCodeModule/phylo.c:109-119 | a philosopher marked LEAVING was the last, THINKING, and parked with its token taken |
| PhilosopherLaws.StepKeepsFed | Userland/uCodeModule/phylo.c:37-66 | nobody hungry is left between two that do not eat, unless its test is under way: kept for each philosopher by every statement but the one that adds, and for philosopher 1 by every one |
| PhilosopherLaws.RemovalKeepsFed | Userland/uCodeModule/phylo.c:109-119 | a removal leaves nobody behind, since the one that goes is not eating |
| PhilosopherLaws.StepFed | Userland/uCodeModule/phylo.c:37-119 | a step keeps that for everybody if and only if it is not an addition between a hungry philosopher and its only eating neighbour |
| PhilosopherLaws.NobodyForgotten | Userland/uCodeModule/phylo.c:37-119 | over every run from the opening it holds throughout if and only if no such addition is made |
| PhilosopherLaws.HungryBesideEating | Userland/uCodeModule/phylo.c:37-119 | over every run without such an addition, whenever the mutex is free every hungry philosopher has an eating neighbour |
| PhilosopherLaws.FreeMeansProgress | Userland/uCodeModule/phylo.c:68-91 | with the mutex free, philosopher 1 or its eating neighbour is not blocked |
| PhilosopherLaws.NeverDeadlocked | Userland/uCodeModule/phylo.c:37-175 | no run, additions and removals included, reaches a state in which no process can step |
| PhilosopherLaws.TakesBoth | Userland/uCodeModule/phylo.c:47-54 | undisturbed beside two that do not eat, five statements give a philosopher both forks |
| PhilosopherLaws.RemovalCanSeatEatersTogether | Userland/uCodeModule/phylo.c:109-150 | from an opening with four philosophers or more, of which phylo opens five of ten: a reachable state whose next removal makes two eaters neighbours |
| PhilosopherLaws.AdditionCanLeaveOneHungry | Userland/uCodeModule/phylo.c:93-150 | from an opening with three philosophers or more: a reachable state in which philosopher 0 is hungry, nobody beside it eats, and the mutex is free |
| PhiloRounds.GoesRound | Userland/uCodeModule/phylo.c:73-90 | undisturbed among philosophers that think: six statements to the forks, six to the end of put_fork and the offer to be parked, four to the start, and everything is as it was |
| PhiloRounds.LeavesFromCheck | Userland/uCodeModule/phylo.c:84-88 | one that finds itself LEAVING posts the mutex and ends |
| PhiloRounds.Leaves | Userland/uCodeModule/phylo.c:81-88 | one that is marked LEAVING and let go ends after four statements of its own, with the mutex free |
| PhiloRounds.StaysGone | Userland/uCodeModule/phylo.c:84-88 | one that has ended does nothing any more |
| PhiloRounds.Shows | Userland/uCodeModule/phylo.c:152-174 | main, asked for nothing or for what the count does not allow, shows the table and is idle again |
| PhiloRounds.Adds | Userland/uCodeModule/phylo.c:93-107 | main, asked for a philosopher, seats one THINKING in the next slot, starts it and frees the mutex |
| PhiloRounds.Removes | Userland/uCodeModule/phylo.c:109-119 | main, asked to take one away, marks the last LEAVING once it is parked, lowers the count and lets it go |
| PhiloRounds.RemovedLeaves | Userland/uCodeModule/phylo.c:81-119 | so a philosopher that is parked, removed and left alone ends, and its slot can be given away again |
| PhiloRounds.ComesBack | Userland/uCodeModule/phylo.c:93-150 | from an opening with three or more: the last eats, parks, is removed, ends and is asked for again, in a run that gives no slot away too early, and the table is as at the start |
| PhiloProcesses.CrowdIsTable | Userland/uCodeModule/phylo.c:68-107 | with processes told apart from slots: as long as no slot is given away before its last process has ended, each slot has one process and every step is that of the table of the other laws |
| PhiloProcesses.OpenedCrowdIsTable | Userland/uCodeModule/phylo.c:68-150 | the same for every run from the opening |
| PhiloProcesses.ReuseDoubles | Userland/uCodeModule/phylo.c:93-107 | once the mutex is taken to give such a slot away, the main program by itself starts the second process |
| PhiloProcesses.ForksTakenTwice | Userland/uCodeModule/phylo.c:68-119 | from an opening with three philosophers or more: a reachable state in which two processes of one philosopher are both between take_fork and put_fork |
| PhiloMutex.OpenedAtZero | Userland/uCodeModule/phylo.c:121-150 | before the main program's post nobody gets through the mutex; the kernel's semaphore is jammed by then if and only if a philosopher has won its lock and read 0, and then nobody ever gets through |
| PhiloMutex.EarlyPhilosopher | Userland/uCodeModule/phylo.c:121-150 | one philosopher that waits before the post is only blocked on an ideal semaphore; on the kernel's nobody ever gets through, whatever follows |
| SharedTable.SharedData.constructor | Userland/uCodeModule/phylo.c:123-140 | all THINKING and all hungry_lock semaphores at 0 |
| SharedTable.SharedData.Test | Userland/uCodeModule/phylo.c:37-45 | the philosopher starts to eat and its token is posted exactly if it is hungry between two that do not eat; nothing else changes |
| SharedTable.SharedData.TakeFork | Userland/uCodeModule/phylo.c:50-51 | the critical section's effect, after which the philosopher or a neighbour eats |
| SharedTable.SharedData.PutFork | Userland/uCodeModule/phylo.c:60-63 | the critical section's effect, after which no neighbour that could eat is left hungry |
| SharedTable.TakeSteps | Userland/uCodeModule/phylo.c:50-52 | the protocol's steps of take_fork amount to what the method does to the arrays |
| SharedTable.PutSteps | Userland/uCodeModule/phylo.c:60-65 | the protocol's steps of put_fork amount to what the method does to the arrays |
| RoundRobin.FirstRunnable | Kernel/scheduler.c:238-243 | the first READY or NEW process, all before it being neither |
| RoundRobinLaws.FindIsFirst | Kernel/scheduler.c:168-178 | a search by pid gives the first process from the root on that has it, and none only if no process has it |
| RoundRobinLaws.StartedInv | Kernel/scheduler.c:31-47 | what initialisation leaves satisfies the ring's invariant, with its stack pointer recorded |
| RoundRobinLaws.StepKeeps | Kernel/scheduler.c:54-262 | every event keeps one ring of distinct processes whose root is the idle process, and only the current process can be RUNNING |
| RoundRobinLaws.RunKeeps | Kernel/scheduler.c:54-262 | the same over every run |
| RoundRobinLaws.TickKeeps | Kernel/scheduler.c:54-88 | a tick that switches leaves a RUNNING process current |
| RoundRobinLaws.RemoveKeeps | Kernel/scheduler.c:216-236 | giving up the next node and taking its process over keeps the ring |
| RoundRobinLaws.TickResumes | Kernel/scheduler.c:62-87 | schedule returns the stack pointer the resumed process had when it last lost the processor, and all that wait have theirs saved |
| RoundRobinLaws.ResumedWhereInterrupted | Kernel/scheduler.c:54-88 | the same after any run of any events |
| RoundRobinLaws.StepAllSaved | Kernel/scheduler.c:54-262 | every event keeps in each process's record, the current one's included, the stack pointer of its last save |
| RoundRobinLaws.DisabledTickResumesStale | Kernel/scheduler.c:56-87 | after any run, a tick with pendingDisables above 0 changes nothing and returns the stack pointer of the current process's last save, so the interrupted one if and only if the two are the same |
| RoundRobinLaws.StaleIsReached | Kernel/scheduler.c:90-135 | from the start, adding a process and disabling the scheduler leads to a tick that resumes the idle process where it first began, wherever it was interrupted |
| RoundRobinIdle.TickFindsProcess | Kernel/scheduler.c:54-112 | while a process of pid 0 can run or runs, findNext ends in every tick, and the tick leaves it so |
| RoundRobinIdle.StepKeepsIdle | Kernel/scheduler.c:54-262 | every event that does not block or kill a process of pid 0 keeps that |
| RoundRobinIdle.NeverWithoutProcess | Kernel/scheduler.c:54-262 | in every run of such events no tick is ever without a process to run |
| RoundRobinIdle.StartedNeverWithoutProcess | Kernel/scheduler.c:31-262 | the same from what initialisation leaves |
| RoundRobinWaiting.KeepsProcessor | Kernel/scheduler.c:64-84 | a running process is switched out exactly at its last tick: 6 less its quanta, at least 1, and 7 where the count wraps |
| RoundRobinWaiting.StepNearer | Kernel/scheduler.c:54-112 | every calm event keeps or lowers the bound on the wait of a process that can run, a tick by at least one |
| RoundRobinWaiting.BoundedWaiting | Kernel/scheduler.c:54-112 | a process that can run becomes current within the quanta left to the current one plus those of the processes between |
| RoundRobinWaiting.WaitBound | Kernel/scheduler.c:72-112 | that bound is at most six ticks for each place in the ring |
| RoundRobinWaiting.ReadyCurrentStarves | Kernel/scheduler.c:64-84 | a current process made READY within its quantum keeps the processor through any number of ticks, and nobody else becomes current |
| RoundRobinWaiting.StarvationIsReached | Kernel/scheduler.c:255-262 | such a state is reached with another process waiting |
| RoundRobinChildren.RemoveCounts | Kernel/scheduler.c:216-236 | after removeNode every process that is left counts exactly its children, if and only if among these the one that loses a child, the parent of the current process, is the parent of the one removed |
| RoundRobinChildren.StepCounts | Kernel/scheduler.c:54-262 | an event keeps all child counts right if and only if it does not kill another process whose parent is not that of the current one |
| RoundRobinChildren.ChildrenCounted | Kernel/scheduler.c:31-262 | over every run from the start in which pids are given out once, the child counts are right throughout if and only if there is no such kill |
| RoundRobinChildren.OwnChildMiscounted | Kernel/scheduler.c:199-223 | a process, other than the idle one, that kills its own child makes the counts wrong |
| RoundRobinEvents.TurnLasts | Kernel/scheduler.c:64-84 | through ticks alone a running process keeps the processor for exactly the ticks its quanta leave it |
| RoundRobinEvents.TurnOfPriority | Kernel/scheduler.c:77-112 | a process that a tick switches in keeps the processor for exactly as many ticks as its priority gives it |
| RoundRobinEvents.PriorityTakesEffect | Kernel/scheduler.c:108-185 | a priority that is set is the quanta of that process's next turn |
| RoundRobinEvents.AloneGoesOn | Kernel/scheduler.c:58-60 | a process that is alone goes on where it was interrupted, through any ticks |
| RoundRobinEvents.ForceSwitches | Kernel/scheduler.c:77-106 | after forceNextSwitch the next tick takes the processor from a running process if another can run, and the force is spent |
| RoundRobinEvents.NewcomerRunsNext | Kernel/scheduler.c:114-149 | a process that is added is the next to run when the current one loses the processor, with its priority for quanta |
| RoundRobinEvents.StartedGivesWay | Kernel/scheduler.c:31-149 | the first process that is added takes the processor from the idle one at the next tick |
| RoundRobinEvents.BlockedStaysOff | Kernel/scheduler.c:73-112 | through ticks alone a blocked process never becomes current |
| RoundRobinEvents.BlockKeepsOff | Kernel/scheduler.c:245-253 | so one that blockProcess blocks is off the processor after the next tick |
| RoundRobinEvents.BlockCurrentKeepsOff | Kernel/scheduler.c:193-197 | and so is one that blocks itself |
| RoundRobinEvents.ReadyUndoesBlock | Kernel/scheduler.c:245-262 | processReady after blockProcess of a READY process leaves everything as it was |
| RoundRobinEvents.KillRemoves | Kernel/scheduler.c:199-236 | after killProcess of another process it is in the ring no more, if the current one has a parent |
| RoundRobinEvents.KilledIsBuried | Kernel/scheduler.c:67-75 | a current process that is killed is in the ring no more after the next tick, if it has a parent |
| RoundRobinEvents.LastChildWakes | Kernel/scheduler.c:220-223 | the parent that loses its last child is READY, and otherwise its state stays |
| RoundRobinEvents.DisablingNests | Kernel/scheduler.c:90-101 | after k calls of disableScheduler, k of enableScheduler and no fewer let it go on, and leave everything as it was |
| SchedulerRing.Scheduler.constructor | Kernel/scheduler.c:31-47 | a ring of the idle process alone, RUNNING with five quanta, from which the run laws start |
| SchedulerRing.Scheduler.FindNext | Kernel/scheduler.c:238-243 | the node of the first runnable process from the candidate on |
| SchedulerRing.Scheduler.FindNode | Kernel/scheduler.c:168-178 | the first node from the root on with the pid, or NULL if no node has it |
| SchedulerRing.Scheduler.RunNext | Kernel/scheduler.c:108-112 | the ring seen from the first runnable process, RUNNING with its priority as quanta |
| SchedulerRing.Scheduler.ProcessReady | Kernel/scheduler.c:255-262 | the ring with that process READY |
| SchedulerRing.Scheduler.BlockProcess | Kernel/scheduler.c:245-253 | the ring with that process BLOCKED |
| SchedulerRing.Scheduler.ChangePriority | Kernel/scheduler.c:180-185 | the ring with that priority |
| SchedulerRing.Scheduler.DisableScheduler | Kernel/scheduler.c:90-95 | one more pending disable |
| SchedulerRing.Scheduler.EnableScheduler | Kernel/scheduler.c:97-101 | one less, never below 0 |
| SchedulerRing.Scheduler.ForceNextSwitch | Kernel/scheduler.c:103-106 | the next tick switches |
| SchedulerRing.Scheduler.BlockCurrentProcess | Kernel/scheduler.c:193-197 | the current process is BLOCKED |
| SchedulerRing.Scheduler.KillCurrentProcess | Kernel/scheduler.c:187-191 | the current process is KILLED |
| SchedulerRing.Scheduler.InsertNode | Kernel/scheduler.c:137-149 | the links go round the old ring with the new node second |
| SchedulerRing.Scheduler.BearChild | Kernel/scheduler.c:119-121 | the current process has one child more |
| SchedulerRing.Scheduler.AddProcess | Kernel/scheduler.c:114-135 | the ring with the new node second and counted, and a child more for the current process |
| SchedulerRing.Scheduler.KillProcess | Kernel/scheduler.c:199-214 | the ring without that process; the current process is only marked KILLED |
| SchedulerRing.Scheduler.LoseChild | Kernel/scheduler.c:220-223 | the parent has one child less and is READY with the last |
| SchedulerRing.Scheduler.GiveUpNext | Kernel/scheduler.c:225-234 | the links go round the ring without the next node, its process moved, the root following pid 0 |
| SchedulerRing.Scheduler.RemoveNode | Kernel/scheduler.c:216-236 | both of these, or no change without a parent |
| SchedulerRing.Scheduler.Save | Kernel/scheduler.c:62-66 | the stack pointer is saved and a running process's tick counted |
| SchedulerRing.Scheduler.Bury | Kernel/scheduler.c:67-75 | a killed process is gone and the next runnable one runs |
| SchedulerRing.Scheduler.Yield | Kernel/scheduler.c:77-85 | the ring after a blocked, expired or forced switch |
| SchedulerRing.Scheduler.Schedule | Kernel/scheduler.c:54-88 | nodes, links and returned stack pointer are those of the model, for which the run laws hold |
| Semaphores.StepKeepsInv | Kernel/semaphore.c:28-67 | every atomic step keeps: one winner of the lock at most, a value to take for whoever passed the check, value = initial + posts - takes |
| Semaphores.LockIsExclusive | Kernel/semaphore.c:32-51 | in every interleaving at most one process is between a won check and lock = 0, and the decrement never underflows |
| Semaphores.StepKeepsBalance | Kernel/semaphore.c:50-63 | takes less posts are what processes hold or are about to |
| Semaphores.HoldersBounded | Kernel/semaphore.c:28-67 | if processes post only what they hold, they hold no more than the initial value together; opened at 1 it is a mutex |
| Semaphores.WaitReturns | Kernel/semaphore.c:28-53 | undisturbed, a wait that finds the lock free and the value above 0 returns after four actions, with the value one less and the lock free |
| Semaphores.QueuedReturns | Kernel/semaphore.c:40-53 | one that has entered the ring returns after three, once its second check finds them so |
| Semaphores.FirstWaitReturns | Kernel/semaphore.c:28-53 | the first wait on a semaphore opened above 0 returns |
| Semaphores.PostGivesBack | Kernel/semaphore.c:55-66 | the post after a wait gives the value back and leaves the process as before |
| Semaphores.WaitsItsTurn | Kernel/semaphore.c:32-48 | while another has the lock a wait goes to and fro between its two checks and changes nothing |
| Semaphores.LostCheckQueues | Kernel/semaphore.c:32-39 | a wait whose first check fails, for the lock or for the value, goes on to enter the ring |
| Semaphores.HoldsSinceOut | Kernel/semaphore.c:28-53 | in every run a process that comes to hold more has returned from a wait of its own |
| Semaphores.StepJams | Kernel/semaphore.c:149-153 | a step leaves the lock taken with nobody to release it if and only if it wins the lock and finds 0 |
| Semaphores.JammedForGood | Kernel/semaphore.c:28-67 | from then on no wait returns, whatever is posted |
| Semaphores.JamsExactly | Kernel/semaphore.c:28-67 | a run jams the semaphore if and only if such a check occurs in it |
| Semaphores.EarlyWaitJams | Kernel/semaphore.c:149-153 | one wait of any process on a semaphore opened at 0 jams it |
| Semaphores.JammedWaitSpins | Kernel/semaphore.c:32-48 | a wait on a jammed semaphore enters the ring of waiters once in every turn of its loop, for ever, and changes nothing else |
| WaitRing.PutAppends | Kernel/semaphore.c:36-39 | entering appends to the queue if and only if it has fewer than 50 entries or the oldest entry is the same process |
| WaitRing.PutRetracted | Kernel/semaphore.c:36-42 | the retract loop takes out the caller's own entry and leaves the queue as it was |
| WaitRing.WokenIsOldest | Kernel/semaphore.c:135-147 | a post wakes the oldest entry and removes it |
| WaitRing.RingIsQueue | Kernel/semaphore.c:33-147 | over runs in which nobody enters a ring of 50 entries, it is a first-in first-out queue |
| WaitRing.FullRingLosesOldest | Kernel/semaphore.c:37-146 | an entry into a ring of 50 is woken in place of the oldest and leaves a free slot where updateProc stops |
| WaitRing.SpinningFills | Kernel/semaphore.c:32-48 | a process that goes round its loop leaves an entry at each turn, as long as there is room |
| WaitRing.OneWaiterOverruns | Kernel/semaphore.c:32-48 | 50 turns of one process fill an empty ring, and the next process that waits is woken before it |
| WaitRing.Waiters.constructor | Kernel/semaphore.c:106-111 | an empty ring of free slots |
| WaitRing.Waiters.Enter | Kernel/semaphore.c:36-39 | slots and counters after entering |
| WaitRing.Waiters.Retract | Kernel/semaphore.c:41-42 | counters after the retract loop |
| WaitRing.Waiters.Update | Kernel/semaphore.c:135-147 | the process to wake and the ring without it |
| Bmfs.Find | Bootloader/BMFS/bmfs.c:205-231 | the first live record with the name before the end mark, or none |
| Bmfs.FirstFree | Bootloader/BMFS/bmfs.c:636-651 | the first slot that holds no live record |
| BmfsSearch.ScanFirstFit | Bootloader/BMFS/bmfs.c:663-685 | over records that do not step back the search gives the lowest place, and 0 only if there is none |
| BmfsSearch.OrderedExactly | Bootloader/BMFS/bmfs.c:663-685 | over live records that do not step back, with deleted ones after them, the search is right for a request if and only if the live files have a place for it or no deleted record leaves as much behind it |
| BmfsSearch.StepBackExactly | Bootloader/BMFS/bmfs.c:677-681 | where a live record steps back, as in directories with empty files made elsewhere, the search is right for a request if and only if there is a place at or before the end of the file that it steps back from |
| BmfsSearch.RequestExactly | Bootloader/BMFS/bmfs.c:663-685 | the two together: for each request, the search is right, and the place that it finds free, if and only if the guard holds |
| BmfsSearch.SearchExactly | Bootloader/BMFS/bmfs.c:663-685 | the search is right for every request if and only if the live records never step back and leave a place as large as from each deleted record's end to the disk's |
| BmfsSearch.SortedCopySplits | Bootloader/BMFS/bmfs.c:597-661 | the sorted copy has the live records first, sorted, and then the deleted ones |
| BmfsSearch.SortedCopySpaced | Bootloader/BMFS/bmfs.c:597-661 | of disjoint files that are not empty each ends in the sorted copy before the next begins |
| BmfsSearch.CreateRightExactly | Bootloader/BMFS/bmfs.c:633-691 | create answers a request rightly, and finds no place that is taken, if and only if the guard holds of the directory's sorted files and deleted records |
| BmfsSearch.DirectoryExactly | Bootloader/BMFS/bmfs.c:633-691 | it does so for all requests if and only if the sorted files never step back and leave room for what each deleted record offers |
| BmfsSearch.CreateFirstFit | Bootloader/BMFS/bmfs.c:610-691 | without deleted records and empty files the new extent is in the data area, disjoint from all files and the lowest that fits; failure means no gap is long enough |
| BmfsSearch.FullDirectoryIgnored | Bootloader/BMFS/bmfs.c:633-691 | with all 64 records in use and one of them deleted, create takes block 1 whatever files there are |
| BmfsSearch.EmptyFileAtOne | Bootloader/BMFS/bmfs.c:663-681 | create called with a size of 0, which main refuses, puts the file at block 1 |
| BmfsLaws.FormatEmpties | Bootloader/BMFS/bmfs.c:260-270 | after a format no name is found |
| BmfsLaws.WriteLaw | Bootloader/BMFS/bmfs.c:754-799 | a write that fits replaces the contents of its file, and no write changes another file or a byte of the first block |
| BmfsLaws.DeleteLaw | Bootloader/BMFS/bmfs.c:802-821 | a delete removes its file and changes no other |
| BmfsBehaviour.ReadIsLookup | Bootloader/BMFS/bmfs.c:722-751 | on a sound volume a read, which of itself asks nothing of the directory, returns the contents of the file |
| BmfsBehaviour.PutIsWritten | Bootloader/BMFS/bmfs.c:754-799 | on a sound volume a write, which of itself asks nothing of the directory, overwrites the file in place |
| BmfsBehaviour.WriteExactly | Bootloader/BMFS/bmfs.c:754-799 | on any volume: if the name is found and the bytes are at most 2097152 for each reserved block, they are what is read from then on and their number is the size; otherwise nothing changes |
| BmfsBehaviour.StandsForBehaves | Bootloader/BMFS/bmfs.c:722-799 | through any further writes a sound volume returns for every name what was last written, and no write leaves the data area |
| BmfsBehaviour.OverlapMisreads | Bootloader/BMFS/bmfs.c:722-799 | if two files share a block, filling one and then the other changes what a read of the first returns |
| BmfsBehaviour.MapExactly | Bootloader/BMFS/bmfs.c:722-799 | a volume of files that are not empty behaves as a map through all further writes, if and only if its files lie apart and in the data area and are now what the map has |
| BmfsRuns.RecordedAdds | Bootloader/BMFS/bmfs.c:693-706 | the new record is added and all others stay, unless it cuts files off |
| BmfsRuns.CreateLaw | Bootloader/BMFS/bmfs.c:610-719 | a permitted create adds an empty file with an extent of its own if it succeeds, and changes no other file |
| BmfsRuns.CutOffLosesFiles | Bootloader/BMFS/bmfs.c:633-706 | in a directory without an end mark whose first record is free, a create leaves no file to be found but its own |
| BmfsRuns.ReadsAfterCreate | Bootloader/BMFS/bmfs.c:610-719 | right after a create that cuts nothing off every read is right, wherever the new file lies |
| BmfsRuns.CreateExactly | Bootloader/BMFS/bmfs.c:610-719 | after a create among files that are not empty the volume behaves as the map with one file more, through all further writes, if and only if the place found was free and nothing was cut off |
| BmfsRuns.PermittedExactly | Bootloader/BMFS/bmfs.c:610-706 | with an end mark, a place that create finds is free if and only if the guard of the search holds |
| BmfsRuns.FullPermittedExactly | Bootloader/BMFS/bmfs.c:633-706 | without one, a create is harmless if and only if it cuts no file off and no file begins before the new one at block 1 ends |
| BmfsRuns.GuardedExactly | Bootloader/BMFS/bmfs.c:610-706 | among files that are not empty both come down to one guard on the directory and the request |
| BmfsRuns.CreatedReserves | Bootloader/BMFS/bmfs.c:610-706 | the record a create makes is found, has size 0 and as many blocks as half the MiB asked for, rounded up, at the place of the search for so many |
| BmfsRuns.CreatedHolds | Bootloader/BMFS/bmfs.c:610-799 | after a create of so many MiB any bytes that fit in them can be written and are then read |
| BmfsRuns.CleanPermits | Bootloader/BMFS/bmfs.c:610-706 | without deleted records every create meets it |
| BmfsRuns.StepLaw | Bootloader/BMFS/bmfs.c:127-190 | a command, create with main's check of the size, does to the volume what it does to a map, if and only if a create meets its guard |
| BmfsRuns.VolumeIsMap | Bootloader/BMFS/bmfs.c:127-190 | all through any run of commands from a format the volume behaves as the map they make, if and only if every create meets its guard where it comes |
| BmfsRuns.NeverStepsBack | Bootloader/BMFS/bmfs.c:156-178 | in such runs no file is empty and the sorted files never step back |
| BmfsRuns.FirstBlockKept | Bootloader/BMFS/bmfs.c:754-799 | and no write goes to the first block outside its directory |
| BmfsRuns.FormattedStandsFor | Bootloader/BMFS/bmfs.c:260-270 | a formatted volume is the empty map |
| BmfsMisled.RowRun | Bootloader/BMFS/bmfs.c:610-719 | creating up to 64 files of one block each on a formatted disk meets all guards and puts them in a row |
| BmfsMisled.DeleteInRowExactly | Bootloader/BMFS/bmfs.c:610-821 | after a delete of any but the last of a row the next create is right exactly if it is of one block, or fits after the row, or is of more than lies between the deleted file and the end of the disk |
| BmfsMisled.FullRowCutOffExactly | Bootloader/BMFS/bmfs.c:633-821 | with 64 files in a row and the first deleted, the next create that finds room cuts off all the others |
| BmfsDisk.Disk.FindFile | Bootloader/BMFS/bmfs.c:205-231 | the loop finds the slot the model names |
| BmfsDisk.Disk.Format | Bootloader/BMFS/bmfs.c:260-270 | the empty directory |
| BmfsDisk.Disk.Survey | Bootloader/BMFS/bmfs.c:635-651 | the count that sorting uses and the slot for a new record |
| BmfsDisk.Disk.Search | Bootloader/BMFS/bmfs.c:663-685 | the loop over the sorted copy computes the search of the laws |
| BmfsDisk.Disk.CreateCommand | Bootloader/BMFS/bmfs.c:156-178 | the volume after main's create command, which refuses a size of 0 |
| BmfsDisk.Disk.Create | Bootloader/BMFS/bmfs.c:610-719 | the directory after a create, and which of its four outcomes holds when |
| BmfsDisk.Disk.Record | Bootloader/BMFS/bmfs.c:693-706 | the record and, at the end of the directory, the end mark after it |
| BmfsDisk.Disk.Read | Bootloader/BMFS/bmfs.c:722-751 | the bytes copied out are those the model reads, on any volume, and on a valid one the contents of the file |
| BmfsDisk.Disk.Write | Bootloader/BMFS/bmfs.c:754-799 | the volume after a write, and which of its outcomes holds when, by the length of the bytes and the blocks reserved |
| BmfsDisk.Disk.CopyTo | Bootloader/BMFS/bmfs.c:784-789 | exactly the bytes of the file are replaced |
| BmfsDisk.Disk.Delete | Bootloader/BMFS/bmfs.c:802-821 | the directory with that record marked deleted |
| Digits.NumeralValue | Userland/uCodeModule/lib.c:447-451 | the digits evaluate to the number |
| Digits.DigitsInOrder | Userland/uCodeModule/lib.c:447-449 | the digit for d is the d-th of 0 to 9 and A to Z |
| Digits.NumeralMinimal | Userland/uCodeModule/lib.c:447-451 | any other digits of the number are the numeral after zeros, so it is the shortest and the only one without them |
| Digits.WriteBackwards | Userland/uCodeModule/lib.c:442-453 | the digits from the last to the first, a NUL, and nothing after it touched |
| Digits.Reverse | Userland/uCodeModule/lib.c:455-463 | the exchange of ends reverses the buffer in place |
| Digits.UintToBase | Userland/uCodeModule/lib.c:442-466 | the buffer holds the numeral of the value and a NUL, the result is its length |
| Digits.Ultoa | Userland/uCodeModule/lib.c:150-171 | the buffer holds what uintToBase leaves for base 10 |
| Digits.CountDigits | Userland/uCodeModule/lib.c:152-154 | the loop counts the digits of the numeral |
| Digits.FillBack | Userland/uCodeModule/lib.c:164-168 | the digits are those of the numeral |
| Digits.Atoul | Userland/uCodeModule/lib.c:127-148 | the value of the leading decimal digits, wrapped to an int and extended |
| Digits.ReadsBack | Userland/uCodeModule/lib.c:127-171 | atoul of what ultoa wrote is the number if and only if it is below 2^31 or at least 2^64 - 2^31 |
| Digits.PassAddress | Userland/uCodeModule/phylo.c:71-100 | an address below 2^31 gets through a philosopher's argument |

## Left out

Assumptions and limits of what is modelled:

- ListAllocator.Allocator.Malloc: the C function is split into methods for its search, cut and relinking, and addresses are assumed below 2^47 so that no address computation wraps.
- ListAllocator.Allocator.Initialize: `alloc_mem`, which the source does not set, is assumed NULL; the memory is assumed to hold the 16 bytes that the first block takes beyond its region.
- BuddyLaws.Run: only requests that have a level; what a request above the arena does to memory, where it reads past the rows and writes through NULL, is not modelled beyond the fault.
- BuddyAllocator.Buddy.MergeBuddy: the statements after its guards are not modelled, because no call reaches them; a variant with another guard is not modelled either.
- Philosophers.StepKeepsInv: semaphores are ideal and atomic, the statements of `test` up to its assignment are one step, the initial modes are THINKING, and a slot is not given to a new philosopher before the last process in it has ended; PhiloProcesses says what happens then.
- PhilosopherLaws.NeighboursNeverEatTogether: runs in which a slot is given to a new philosopher before the last process in it has ended are not covered; without removals there are none.
- PhilosopherLaws.NobodyForgotten: the same runs are not covered.
- PhilosopherLaws.HungryBesideEating: the same runs are not covered.
- PhilosopherLaws.NeverDeadlocked: the same runs are not covered.
- SharedTable.SharedData.TakeFork: the waits and posts around the critical section are steps of the protocol and not part of the method.
- RoundRobinLaws.StepKeeps: a tick is taken to find a process to run, since the recursion of `findNext` does not end without one; RoundRobinIdle proves when it does.
- RoundRobinLaws.RunKeeps: the same for every tick of the run.
- RoundRobinLaws.TickKeeps: the same for the tick.
- RoundRobinWaiting.BoundedWaiting: no additions, kills, priority changes, disabling, or processReady of the current process on the way. The last can keep everybody waiting for ever; what the others add to the bound is not stated.
- SchedulerRing.Scheduler.Schedule: a killed process that is also the foreground process is not modelled, nor the foreground and background pointers; for it the source forces another tick from inside `schedule`.
- SchedulerRing.Scheduler.Bury: the same process is not modelled.
- SchedulerRing.Scheduler.KillProcess: not where the node given up is `currentNode`, which the source would leave dangling, and not the process at the root; what the source prints for an unknown pid and what it returns are not modelled.
- SchedulerRing.Scheduler.AddProcess: creation of the process, its arguments and the semaphore around the child counts are not modelled; the new process is a parameter.
- Semaphores.StepKeepsInv: posts are assumed not to carry the value past its word; regions with the scheduler disabled are one step.
- WaitRing.RingIsQueue: the two counters are assumed not to pass 2^64.
- BmfsSearch.SortedCopySpaced: `qsort` is modelled as a stable sort, which fixes the order of files that begin at the same block and of deleted records, for which the C comparison answers 1 both ways; the comparison's cut to an int is left out by assuming block numbers below 2^31.
- BmfsDisk.Disk.Write: the directory buffer stands for its copy on disk, so the layout of a record in bytes and the flush itself are not modelled; sizes are assumed below 2^31, as the loop counters are ints.
- BmfsRuns.VolumeIsMap: names are assumed to have 1 to 31 characters and not to begin with the codes 0 or 1; the number that `atoi` reads from the command line is a parameter.
- RoundRobinChildren.ChildrenCounted: pids are assumed to be given out once; the source counts `current_pid` down when a process is freed, and then gives a pid out again.
- Digits.Atoul: the overflow of a signed int, which C leaves undefined, is taken to wrap round.

Not modelled:

- `Kernel/pipe.c`, whose functions work on a local copy of the structure.
- The table of semaphore names (`sem_open`, `sem_close`), and progress of waits that are not jammed.
- `Kernel/process.c`: creation and teardown of processes.
- Video, keyboard, sound, clock, shell, games and text filters, which drive devices or the screen.
- Boot code, interrupt stubs and register snapshots, which are tied to the machine.
- BMFS `initialize`, argument parsing and listing, which move bytes between files or print.
- `memset`, `strcpy`, `strcmp` and the module loader: each is a loop over bytes that keeps no state between calls.
