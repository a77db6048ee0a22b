# Verified models of the xv6 kernel's hard parts

A Dafny project about a teaching kernel in C: xv6 with copy-on-write fork,
kernel threads, kernel mutexes and a firing-squad demonstration.  Seven parts
of it are modelled and proved:

- **Redo log over the buffer cache** (`Blocks`, `Collections`, `LogCrash`,
  `GroupCommit`, `LogLimits`, `BufferCache`, `Log`).  A disk is a sequence of
  512-byte blocks written one block at a time; a crash may fall between any two writes.  Commit and
  recovery are block-write lists that the methods of `Log.RedoLog` are proved
  to produce exactly, and `LogCrash.CrashAtomicity` and
  `GroupCommit.GroupCommitSafety` say what any crash leaves behind.
- **Copy-on-write address spaces** (`PageWalk`, `Cow`, `CowCells`,
  `CowRefinement`, `VirtualMemory`).  Page tables map (process, page number) to
  a physical page and flags, beside `page_counters` and the free-page list.
  `CowRefinement.CowRefinesEager` proves that every run of forks, user stores,
  exits and size changes shows each process the bytes that eager copying would
  show it.
- **File layer** (`Bitmap`, `FileBlocks`, `Files`, `Directory`, `FileBudget`,
  `FileCrash`).  The bitmap is bits of bytes of disk blocks, indirect blocks are
  words of disk blocks, inodes are 64-byte records of disk blocks.  Abstractly
  the data area is partitioned among owners, a file is a byte sequence and a
  directory is a finite map.  Every change of a block is passed to `log_write`, and the set of
  logged blocks is part of the contracts.  `FileCrash.WriteAtomic` puts a write
  on top of the log: if the blocks that `writei` logged fit the log, then after
  any crash the file is the old one or the new one.
  `FileCrash.WriteChunkLogged` removes the condition for the chunks of
  `filewrite`, on a disk with one bitmap block.
- **Threads, mutexes, barrier** (`SleepWakeup`, `Mutex`, `Barrier`,
  `BarrierThreads`, `BarrierProgress`, `FiringSquad`, `SquadFiring`,
  `SquadThreads`, `CrewFiring`).  Step machines over any number of threads and
  any interleaving: no lost wakeup, mutual exclusion, the two-turnstile barrier,
  the barrier on mutexes that sleep and wake with a bound on the steps until a
  round completes, the threaded automaton against the synchronous one, and when
  its threads leave their loops.
- **User heap** (`Umalloc`, `SbrkPages`): the K&R allocator, from *The C
  Programming Language*, second edition, section 8.7, and the pages under it.
- **Pipe ring buffer** (`Pipe`), with wrapping 32-bit counters.
- **Regular-expression matcher** (`Grep`), from *The Practice of Programming*,
  chapter 9, against a declarative semantics.

Conventions.  Imperative code is a class or a method with loops, proved
against functions on values; the theorems are lemmas about those functions.
Code that runs under one spinlock is one atomic step, and code outside it is a
step of its own (the guard of `log_write` is one); a call that would sleep
returns an outcome that says so.  A panic is an outcome too.  32-bit
arithmetic is written out where it can wrap.  `bread` after `log_write` sees
the logged contents, so the file layer works on the logical disk that
`BufferCache.CoherentRun` justifies.  Linked lists keep
their links (`prev` and `next` of `BufCache`, the headers of `Heap`).

Findings, each with its exact condition and an input at which the code fails:

- `log_write` measures the list before it takes the log lock (log.c:215-220),
  so two calls can pass the guard on one free slot.  The list stays inside the
  log region exactly when the region has more than `LOGSIZE` blocks or only the
  header (`LogLimits.RegionExact`; the run is `LogLimits.Overflow`).  With 2
  to `LOGSIZE` - 1 blocks `write_log` then stores the last entry into the first
  block after the region and a crash loses that block
  (`LogLimits.OverflowHits`).  With the `LOGSIZE` blocks that mkfs.c:25 gives
  the region, the list that outgrows it pins all `NBUF` buffers, `bget` panics
  before the first write and the disk keeps the old state
  (`LogLimits.OverflowPanics`).  So every crash recovers a committed state
  exactly when the region has at least `LOGSIZE` blocks or only the header
  (`LogLimits.SafetyExact`).
- The same guard panics on an appending write within the caller's reservation
  exactly when the region has at most `LOGSIZE` blocks or some call may exceed
  its reservation (`LogLimits.AppendPanicExact`).  On a write that would only be
  absorbed it can panic in every region that has a slot
  (`LogLimits.AbsorbPanicExact`).  `LogLimits.PanicExactly` gives the states.
- `NBUF` equals `LOGSIZE`, so a commit of `LOGSIZE` blocks has every buffer
  pinned and finds none for the log slots: `bget` panics.  A commit with no
  reader about finds its buffers exactly when fewer than `NBUF` blocks are
  logged (`Log.RedoLog.CommitRoomExact`, `Log.RedoLog.Commit`).  Runs reach a
  commit of `NBUF` blocks exactly when the region has at least `LOGSIZE` - 1
  blocks (`LogLimits.StuckExact`; the runs are `LogLimits.StuckReached`).
  Readers that hold the other buffers can bring a commit there in every region
  that has a slot, and in no other (`LogLimits.StarvedExact`).
- `filewrite` sizes its chunks by `LOGSIZE` (file.c:132) where `begin_op`
  reserves `MAXOPBLOCKS` for a call.  On a disk with one bitmap block, as mkfs
  makes it, `writei` logs exactly `FileBudget.LogCount` blocks
  (`FileBudget.CountedWrite`); a write of n bytes keeps to the reservation for
  every file and offset exactly when n is at most 3073
  (`FileBudget.FilewriteExact`), and a full chunk never does
  (`FileBudget.ChunkOverBudget`).  The overrun can cost a panic of `log_write`
  (`LogLimits.AppendPanicExact`) and, in the region mkfs makes, never a committed
  block: the safety results hold for calls that append any number of blocks, and
  no list outgrows the `LOGSIZE` places of the header (`GroupCommit.StepSane`).
- `kthread_mutex_unlock` finds a FREE slot for mutex id 0 and makes it
  UNLOCKED.  The table stays in order exactly when the id is not 0 or no slot
  is free (`Mutex.UnlockKeepsExactly`; at boot, `Mutex.UnlockZeroAtBoot`).
- A thread that slept in `kthread_mutex_lock` repeats the exchange on the slot it
  found before (mutex.c:76-78), without another look at its id.  If the mutex was
  unlocked and deallocated in between, it locks a FREE slot.  The table stays in
  order exactly when the slot is not FREE (`Mutex.RetryKeepsExactly`; the calls
  are `Mutex.RetryAfterDealloc`).
- The threads of fssp.c wait for one another in the barrier, and whoever fires
  leaves.  So all of them leave exactly when the first firing is one of all
  soldiers (`SquadFiring.AllLeaveExactly`, on sleeping mutexes
  `CrewFiring.AllLeaveExactly`); otherwise those who did not fire wait for ever
  (`SquadFiring.SquadEnds`; a rule is `SquadFiring.LoneFiring`).
- Plain `deallocuvm` keeps the counters right exactly when nobody else maps
  the page (`Cow.PlainUnmapExactly`; after a fork,
  `CowRefinement.PlainUnmapOfShared`).
- A store between the process size and the end of its last page kills the
  process under copy-on-write and not under eager copying exactly when that
  page is shared and user-accessible (`CowRefinement.StoreAboveSizeExactly`;
  `CowRefinement.StorePastSizeKilled`).
- The 4 MB skip of the deallocation walks can miss mapped pages when the start
  is not aligned (`PageWalk.SkipMissesPage`); `PageWalk.VisitedExactly` says
  which pages are visited.  This kernel never meets such a table: its user pages
  are contiguous from 0, and then nothing is missed
  (`PageWalk.ContiguousMissesNothing`).
- `malloc` computes its units in 32 bits and hands `sbrk` their bytes as an
  int.  A block taken from new core is backed by memory and holds the request
  exactly up to 0x7FFFFFF0 bytes, one taken from the free list exactly up to
  0xFFFFFFF8 (`Umalloc.CoreHoldsRequest`, `Umalloc.UnitsHoldRequest`).  Beyond,
  `sbrk` is asked for 0 bytes (`Umalloc.ZeroByteCore`) or for a negative number
  (`Umalloc.NegativeCore`) and succeeds, or the request wraps to an empty block
  (`Umalloc.WrappingRequest`).  When the negative number is exactly minus the
  process size, `deallocuvm` frees every page and its result 0 is taken for a
  failure (proc.c:108): `malloc` returns 0 and the heap is gone.
  `Umalloc.FreedExactly` gives the requests for every process size, and
  `Umalloc.FreedProcess` one of them; `CowRefinement.ShrinkExactly` is the same
  failure in the address space.
- `dirlink` stores the inode number in 16 bits: the name is bound exactly when
  the number is not 0 modulo 65536 (`Directory.LinkExactly`;
  `Directory.LinkLosesInode65536`).

## Model

| member | source | states |
|---|---|---|
| LogCrash.HeaderRoundTrip | log.c:84-112 | what write_head stores in the header block, read_head reads back, whatever the block held before |
| LogCrash.RecoveredAt | log.c:68-81 | recovery puts the logged contents into exactly the blocks the header names and leaves the other home blocks |
| LogCrash.RecoveryPrefix | log.c:114-121 | a recovery cut off after any number of its block writes leaves a disk that recovers to the same home blocks |
| LogCrash.BeforeHeader | log.c:174-193 | a crash of commit before the header write recovers to the old home blocks |
| LogCrash.CommitTailIsRecovery | log.c:195-197 | what commit writes after the header write is exactly what recovery of that disk would write |
| LogCrash.AfterHeader | log.c:189-199 | a crash at or after the header write recovers to all the new blocks |
| LogCrash.RebootsRecover | log.c:114-121 | any number of interrupted recoveries before a full one change nothing about its result |
| LogCrash.CrashAtomicity | log.c:189-199 | for any distinct home blocks and an empty log, a crash after any number of commit's writes, then any interrupted boots, then recovery: all blocks old up to the header write, all new after it, and an empty log |
| GroupCommit.StepSane | log.c:124-230 | whatever the size of the log region and whatever the calls append, every step of callers, readers, commit, crash and recovery keeps distinct entries, at most LOGSIZE of them, no more blocks in use than buffers, and no call during a commit |
| GroupCommit.CommitStepIsPlan | log.c:174-199 | a commit that reads each block from the cache as it goes makes exactly the writes of the commit write list |
| GroupCommit.StepInv | log.c:124-230 | with a safe region (the header alone, or at least LOGSIZE blocks), every step of any caller (the unlocked guard and the locked append apart, with no bound on what it appends), of readers, of commit, of a crash and of recovery keeps the whole invariant, a commit without buffers included |
| GroupCommit.StepDurable | log.c:144-199 | what recovery would yield changes at one step only, the commit's header write, when no call is in progress, and then to the cached disk of that moment |
| GroupCommit.GroupCommitSafety | log.c:124-230 | with a safe region, at every moment of every run, calls over their budget and readers included, recovery yields the logical disk of the start or of the last commit point, when no call was in progress; no finished commit is lost |
| LogLimits.SafetyExact | log.c:124-230 | on every disk with LOGSIZE blocks after the log region, that safety holds for all runs if and only if the region has at least LOGSIZE blocks or only its header |
| LogLimits.RegionExact | log.c:210-230 | on every disk with LOGSIZE blocks after the log region, every reachable list stays inside it if and only if the region has more than LOGSIZE blocks or only its header |
| LogLimits.Overflow | log.c:215-227 | a run in which two calls pass the guard on the last free slot and both append |
| LogLimits.OverflowHits | log.c:174-187 | with 2 to LOGSIZE - 1 blocks in the region, the commit of that run overwrites a home block before any header names it |
| LogLimits.OverflowPanics | bio.c:86-96 | with LOGSIZE blocks, the commit of that run has NBUF blocks pinned: no write can follow, the disk is as it was at the start, and recovery keeps it |
| LogLimits.StuckStays | bio.c:86-96 | a commit whose list pins every buffer has written nothing and never will, whatever readers do, until the crash |
| LogLimits.CrowdStep | log.c:215-227 | at most three calls run, and the list plus the calls past the guard stay within log.size + 1, at every step |
| LogLimits.ThreeOverflow | log.c:215-227 | three calls pass the guard on one free slot, which lists NBUF blocks in a region of LOGSIZE - 1 |
| LogLimits.StuckReached | log.c:174-187 | a reachable commit of NBUF blocks, for every region of at least LOGSIZE - 1 blocks |
| LogLimits.StuckExact | log.c:124-187 | no reachable commit has a list that pins every buffer if and only if the region has at most LOGSIZE - 2 blocks |
| LogLimits.StarvedExact | file.c:104-107 | no reachable commit meets bget's panic, whatever readers hold, if and only if the region has only its header |
| LogLimits.StepReserved | log.c:124-140 | while every call keeps to MAXOPBLOCKS, every step keeps lh.n plus the unused budgets within LOGSIZE, whatever the size of the region |
| GroupCommit.RecoveryYieldsDurable | log.c:114-121 | when recovery ends, cache and disk both hold what was recoverable, with no call and an empty log |
| GroupCommit.NoCallDuringCommit | log.c:124-156 | calls run only while no commit does, so end_op's check for a commit in progress cannot fire |
| GroupCommit.PinnedUntilHome | log.c:68-81 | during a commit a listed block is pinned if and only if install_trans has not yet written it home |
| GroupCommit.CommitWaitsExactly | log.c:68-193 | a commit with a buffer to spare can make its next block write if and only if no reader holds the block it copies or writes |
| LogLimits.ReservationLeavesRoom | log.c:124-140 | a caller within its MAXOPBLOCKS budget finds fewer than LOGSIZE entries, and no guard panic when the region is larger than LOGSIZE |
| LogLimits.AppendPanicExact | log.c:210-230 | while every call appends at most cap blocks, cap at least MAXOPBLOCKS, no call below its cap meets the guard's panic if and only if log.size exceeds LOGSIZE and cap is MAXOPBLOCKS |
| LogLimits.AbsorbPanicExact | log.c:215-225 | no reachable log_write of a block already in the list panics if and only if the region has only its header |
| LogLimits.PanicExactly | log.c:215-218 | in every reachable state with a call in progress: over a region larger than LOGSIZE the guard panics if and only if the list has LOGSIZE entries, and when all calls keep to their budgets then none is left; over a smaller one if and only if the slots are used up |
| BufferCache.UnlinkLinked | bio.c:131-132 | taking a buffer out of the list leaves the list of the others |
| BufferCache.PushFrontLinked | bio.c:133-136 | putting it behind the head gives the list with it in front |
| BufferCache.CacheStep | bio.c:62-142 | every event of callers that modify only busy buffers and log or write them before release keeps the cache invariant and acts as on a plain block map |
| BufferCache.CoherentRun | bio.c:62-142 | over every run, the cache stands for the plain block map that the events define, and a held buffer shows that map's contents |
| BufferCache.PinnedStays | bio.c:86-94 | a dirty buffer keeps its block and its data under every event except bwrite and its holder's own change |
| BufferCache.RoomForOne | bio.c:86-95 | fewer than NBUF busy or dirty blocks suffice for bget to find a victim |
| BufferCache.NoRoomForOther | bio.c:86-95 | with NBUF blocks busy or dirty, bget of any other block panics |
| BufferCache.GetsUnlessBusy | bio.c:62-96 | bget of a block that nobody holds returns a buffer when there is room |
| BufferCache.RecycledIsOldest | bio.c:84-94 | over every run, the buffer that bget recycles is idle and clean, and no idle clean buffer was released longer ago |
| BufferCache.RunByAge | bio.c:121-136 | over every run, the list goes from the latest release to the earliest |
| BufferCache.GetMeans | bio.c:62-96 | what bget promises on values: the cached buffer, the last idle clean one of the list, or the panic, and nothing else changed |
| BufferCache.ReadShows | bio.c:98-109 | the buffer that bread returns shows the logical contents of its block |
| BufferCache.CleanIsDisk | bio.c:62-109 | a block that is neither busy nor dirty reads as it is on disk |
| BufferCache.BufCache.constructor | bio.c:39-57 | binit leaves all NBUF buffers on the doubly linked list, each once, none valid, busy or dirty |
| BufferCache.BufCache.FindCached | bio.c:71-81 | the forward scan returns the buffer caching the block, or the head when there is none |
| BufferCache.BufCache.FindVictim | bio.c:86-94 | a buffer that is neither busy nor dirty and after which every buffer of the list is busy or dirty; the head if and only if all are |
| BufferCache.BufCache.Bget | bio.c:62-96 | the cached buffer when idle, sleep when it is busy; else the idle clean buffer after which the list has none, re-identified and busy; else, if and only if there is none, the panic; no other buffer changes |
| BufferCache.BufCache.Iderw | memide.c:37-59 | a dirty buffer is written to its block, an invalid one is filled from it |
| BufferCache.BufCache.Bread | bio.c:98-109 | a busy valid buffer for the block with the logical contents, if and only if nobody holds the block and it is dirty or fewer than NBUF blocks are in use; it sleeps if and only if the block is held; nothing else the cache stands for changes |
| BufferCache.BufCache.ReaderLeaves | bio.c:121-142 | the reader that holds a block releases it, and what the cache stands for is as it was |
| BufferCache.BufCache.BreadWait | bio.c:71-79 | bread with its sleep: once the reader has left the block is there, and the panic comes exactly when nobody held the block, it is not dirty and NBUF blocks are in use |
| BufferCache.BufCache.Bwrite | bio.c:111-119 | the buffer's contents reach the disk in one block write and the buffer is clean |
| BufferCache.BufCache.SetData | log.c:182 | a holder's memmove changes that buffer's data and nothing else |
| BufferCache.BufCache.Pin | log.c:228 | B_DIRTY set on the buffer, which pins it |
| BufferCache.BufCache.MoveToFront | bio.c:131-136 | the six link assignments move the buffer to the front of the list |
| BufferCache.BufCache.Brelse | bio.c:121-142 | the buffer is at the most recently released end and no longer busy |
| Log.ApplySlot | log.c:179-186 | one more turn of write_log is one more block write of the slot list |
| Log.ApplyInstall | log.c:73-80 | one more turn of install_trans is one more block write of the home list |
| Log.CommitPieces | log.c:189-199 | write_log, write_head, install_trans and the clearing write_head together make exactly the commit write list |
| Log.RedoLog.constructor | log.c:53-65 | initlog recovers whatever transaction the header names and leaves an empty log |
| Log.RedoLog.CopyBlock | log.c:74-79 | reads both blocks, waiting for a reader of the home block, copies, writes the destination and releases both: one block write; bget's panic exactly characterised |
| Log.RedoLog.LogOne | log.c:180-185 | one turn of write_log: one slot write, or bget's panic exactly when no buffer is left |
| Log.RedoLog.WriteLog | log.c:174-187 | the logged blocks' cached contents are in the log slots, by exactly those slot writes, after their readers have left; or bget's panic before any write, exactly when pinned and held blocks fill the cache |
| Log.RedoLog.WriteHead | log.c:100-112 | one block write that makes the header name the in-memory list; or bget's panic with nothing changed, exactly when pinned and held blocks fill the cache |
| Log.RedoLog.HeaderBlock | log.c:104-109 | the loop stores exactly the encoded list into the header block |
| Log.RedoLog.InstallOne | log.c:73-80 | one turn of install_trans: one home write, and the block is unpinned and without readers |
| Log.RedoLog.InstallTrans | log.c:68-81 | the slots reach their home blocks, in order, and nothing stays pinned, in a commit and in recovery |
| Log.RedoLog.ReadHead | log.c:84-95 | the in-memory list becomes the decoded header |
| Log.RedoLog.Recover | log.c:114-121 | the disk after it is the disk before with exactly the recovery write list applied |
| Log.RedoLog.WriteTransaction | log.c:193-194 | the transaction is on disk and committed: the first part of the commit write list |
| Log.RedoLog.EraseTransaction | log.c:195-197 | the transaction is installed and erased: the rest of the list |
| Log.RedoLog.Commit | log.c:189-199 | the disk after it is the disk before with exactly the commit write list applied, nothing pinned, readers of the logged blocks waited for; or bget's panic before any write, exactly when pinned and held blocks fill the cache |
| Log.RedoLog.CommitRoomExact | log.c:174-187 | with no reader about, a commit finds its buffers if and only if fewer than NBUF blocks are logged |
| Log.RedoLog.BeginOp | log.c:124-140 | admitted exactly when no commit runs and the reservation fits; otherwise sleeps and nothing changes |
| Log.RedoLog.LogGuard | log.c:215-218 | the unlocked guard: either panic exactly characterised, nothing changed |
| Log.RedoLog.LogAppend | log.c:220-229 | the locked part: absorbed or appended, and pinned; the list keeps naming exactly the pinned blocks, each once, and never runs past its LOGSIZE places, whatever the callers log |
| Log.RedoLog.PlaceLeft | log.c:35 | a held block that is not listed finds a place in the list, since every listed block has a buffer too |
| Log.RedoLog.LogWrite | log.c:210-230 | guard and append with nothing in between: the list also stays inside the log region |
| Log.RedoLog.EndOp | log.c:144-171 | the last call out commits and empties the list, the others only leave; the two panics exactly characterised |
| PageWalk.VisitedExactly | vm.c:263-276 | the walk with its 4 MB skip visits a page if and only if its table exists and its index in the table is not below the start's, unless an earlier table was met |
| PageWalk.AlignedStartMissesNothing | vm.c:263-267 | from a 4 MB boundary the skip misses no mapped page |
| PageWalk.ContiguousMissesNothing | vm.c:263-267 | it misses none when tables exist for all pages from 0 up, whatever the start |
| PageWalk.SkipMissesPage | vm.c:263-267 | an unaligned start and a missing table for which a mapped page is skipped |
| Cow.MapFreshEntries | vm.c:235-245 | mapping a page from the pool with counter 1 keeps counters, flags and pool right |
| Cow.MapFreshPool | vm.c:235-245 | and neither loses nor invents a page |
| Cow.SharePool | vm.c:409-423 | sharing a page loses and invents none |
| Cow.CowUnmapPool | vm.c:292-307 | counted unmapping loses and invents none |
| Cow.FaultPool | vm.c:434-485 | a resolved fault loses and invents none |
| Cow.ShareEntries | vm.c:409-423 | sharing one page with a child keeps every counter equal to the number of mappings and every writable page unshared |
| Cow.CowUnmapEntries | vm.c:292-307 | counted unmapping keeps the counters right and frees the page if and only if this was its last mapping |
| Cow.PlainUnmapExactly | vm.c:268-275 | uncounted unmapping keeps the invariant if and only if nobody else maps the page |
| Cow.FaultCorrect | vm.c:434-485 | a resolved fault keeps the invariant, gives the entry a private writable page with the contents and user bit it had, and fails exactly when the page is unmapped, not shared, above the size, or no page is free to copy to |
| CowCells.ShareAll | vm.c:399-431 | the whole loop of cow_shareuvm gives the child cells equal to the parent's and keeps the counters |
| CowCells.CowDropAll | vm.c:281-310 | the counted walk removes exactly the visited pages of the process from view |
| CowCells.PlainDropAll | vm.c:254-278 | on unshared pages the plain walk keeps the invariant and removes exactly the visited pages |
| CowCells.PlainDropPool | vm.c:254-278 | and loses and invents no page |
| CowCells.GrowAll | vm.c:234-247 | with enough free pages the loop of allocuvm gives the process zeroed pages of its own, keeps counters and pool right, and changes nothing else anybody sees |
| CowCells.GrowUndone | vm.c:236-240 | the failure path of allocuvm leaves every process and the pool as they were |
| CowRefinement.DropWhole | vm.c:332-347 | a walk of the whole user part leaves nothing of the process and everything of the others |
| CowRefinement.ForkRefines | proc.c:168-214 | copy-on-write fork is the eager fork on what processes see |
| CowRefinement.StoreRefines | trap.c:82-85 | a user store below the size, with its fault if there is one, is the eager store, unless no page was free |
| CowRefinement.ExitRefines | proc.c:325-373 | releasing a space with cow_freevm is the eager release |
| CowRefinement.GrowRefines | proc.c:97-116 | growing by sbrk is the eager growth; it runs out of memory if and only if fewer pages are free than it needs, and then nobody sees a change |
| CowRefinement.GrownReadsZero | vm.c:234-247 | a process that grew finds every byte of its new pages mapped, user-accessible and 0 |
| CowRefinement.ShrinkRefines | proc.c:97-116 | shrinking unshared pages by less than the size is the eager shrinking, and past the size it changes nothing |
| CowRefinement.ShrinkExactly | proc.c:107-110 | shrinking an unshared space keeps the invariant if and only if the amount is not exactly the size |
| CowRefinement.StepRefines | vm.c:224-485 | each step of the copy-on-write system (fork, store, exit, grow, shrink) keeps the invariant and is the eager step, except for a lack of pages, which shows in nobody's view |
| CowRefinement.CowRefinesEager | vm.c:224-485 | over every run of forks, user stores, exits, growing and shrinking, the bytes and sizes every process sees are those of eager copying, and the counters stay right |
| CowRefinement.RunKeepsPool | vm.c:281-485 | over every run, the mapped and the free pages together stay the same |
| CowRefinement.StoreAboveSizeExactly | vm.c:456-480 | past the size, inside the last page, copy-on-write and eager copying differ if and only if the page is shared and user-accessible |
| CowRefinement.ForkShares | vm.c:399-431 | a fork of a one-page process shares the page between both, with counter 2 |
| CowRefinement.PlainUnmapOfShared | vm.c:254-278 | plain deallocuvm of that page leaves it mapped by the child and on the free list |
| CowRefinement.StorePastSizeKilled | vm.c:456-484 | a store past the size on that page is killed, where eager copying stores |
| VirtualMemory.UndoGrow | vm.c:236-240 | allocuvm's failure path takes back exactly the pages it had added: the page tables and the set of free pages are the old ones |
| VirtualMemory.UndoCopy | vm.c:393-395 | copyuvm's failure path leaves every process as it was |
| VirtualMemory.VmSystem.constructor | kalloc.c:30-36 | kinit1: no process, and exactly the whole pages of the range in the pool |
| VirtualMemory.VmSystem.Kalloc | kalloc.c:82-95 | the head of the free list, failing exactly when it is empty |
| VirtualMemory.VmSystem.Kfree | kalloc.c:59-77 | the page, filled with junk, at the head of the free list |
| VirtualMemory.VmSystem.Freerange | kalloc.c:45-52 | exactly the whole pages of the range join the pool, each once |
| VirtualMemory.VmSystem.DeallocUvm | vm.c:254-278 | the state after it is the plain walk over the pages between the sizes; result as in the source |
| VirtualMemory.VmSystem.UnmapCounted | vm.c:297-307 | one entry gone, its counter down by one, its page freed at zero |
| VirtualMemory.VmSystem.CowDeallocUvm | vm.c:281-310 | the counted walk, keeping counters and pool right |
| VirtualMemory.VmSystem.CowFreeVm | vm.c:332-347 | nothing of the process stays mapped and no other process sees a change |
| VirtualMemory.VmSystem.FreeVm | vm.c:312-329 | the plain walk over the whole user part |
| VirtualMemory.VmSystem.ShareEntry | vm.c:414-423 | PTE_SH set and PTE_W cleared in both entries, counter up by inc_counter |
| VirtualMemory.VmSystem.CowShareUvm | vm.c:399-431 | the child sees the parent's pages, memory and pool untouched, counters right |
| VirtualMemory.VmSystem.MakePrivate | vm.c:456-477 | the entry gets a private copy, or the page itself when it is the last user; false exactly when the pool is empty and a copy is needed |
| VirtualMemory.VmSystem.CowCopyUvm | vm.c:434-485 | the fault handler keeps the invariant and changes nothing that any process sees |
| VirtualMemory.VmSystem.AllocUvm | vm.c:224-248 | zeroed pages up to the new size if and only if enough pages are free, and the pool shrinks by them; otherwise 0, with the page tables and the set of free pages as they were |
| VirtualMemory.VmSystem.CopyUvm | vm.c:365-396 | the child sees copies of the parent's pages when enough pages are free, otherwise nothing is left of it |
| Bitmap.TestPut | fs.c:63-65 | setting or clearing one bit of a byte changes that bit and no other |
| Bitmap.UsedMark | fs.c:85-90 | marking a block changes its bit in the bitmap and no other block's |
| Bitmap.AllocatedFree | fs.c:64-69 | balloc takes exactly one block out of the free set |
| Bitmap.SuperRoundTrip | mkfs.c:94-118 | readsb reads back the layout that mkfs writes, in the right words, and the data area is the last nblocks blocks |
| Bitmap.MkfsLayout | mkfs.c:18-25 | with the constants of the repository: inodes from block 32, the bitmap in block 58, data from block 59 |
| FileBlocks.OneOwner | fs.c:356-384 | no block is named twice, neither by one inode nor by two |
| FileBlocks.DataAreaSplit | fs.c:53-93 | a data block is marked in use if and only if some inode names it |
| FileBlocks.AllocatedMarked | fs.c:53-75 | balloc's block is a data block that nobody owned, and the bitmap stays exact with its new owner |
| FileBlocks.PlantDirect | fs.c:362-372 | a new direct or indirect block keeps ownership exact and no file changes a byte |
| FileBlocks.PlantEntry | fs.c:373-378 | a new block behind the indirect block keeps ownership exact and no file changes a byte |
| FileBlocks.StoreData | fs.c:479-485 | a store into one data block patches that file at the matching offset and no other file |
| FileBlocks.StillMarked | fs.c:88-89 | a block of the inode that itrunc has not freed yet is marked, so bfree does not panic |
| FileBlocks.FreeOne | fs.c:398-414 | each bfree of itrunc frees one block of the inode and nothing else |
| FileBlocks.Truncated | fs.c:391-419 | freeing them all leaves ownership exact, the inode empty and every other file as it was |
| FileBlocks.InodeRoundTrip | fs.c:199-215 | the inode that iupdate stores reads back |
| FileBlocks.OtherInodesKept | fs.c:199-215 | the other inodes of the block keep their slots |
| Files.FormattedIsOwned | mkfs.c:94-108 | a disk with only metadata in use and empty inodes satisfies the ownership invariant |
| Files.FileSystem.constructor | fs.c:162-169 | the super block read from block 1 and every inode read from its slot: in memory and on disk they agree |
| Files.FirstClear | fs.c:62-71 | the inner loop finds the first clear bit of a bitmap block |
| Files.FileSystem.Balloc | fs.c:53-75 | the least free block, marked and zeroed; its bitmap block and itself logged; the panic exactly when no block is free |
| Files.FileSystem.MarkAndZero | fs.c:63-69 | the bitmap block and the zeroed block are changed and logged, nothing else |
| Files.FileSystem.Bfree | fs.c:78-93 | the bit cleared and its bitmap block logged; the panic exactly when it was clear |
| Files.FileSystem.AddDirect | fs.c:363-372 | one field of the inode filled with a new block, all files and ownership kept |
| Files.FileSystem.AddEntry | fs.c:375-378 | one entry of the indirect block filled with a new block, all files and ownership kept |
| Files.FileSystem.Bmap | fs.c:356-384 | the block at the file block number, allocated only when missing; ownership exact, no file changes a byte, other inodes untouched; every changed block logged, and exactly the new blocks with their bitmap and indirect blocks; it panics if and only if the number is out of range or fewer blocks are free than the block and a missing indirect block need |
| Files.FileSystem.BmapIndirect | fs.c:368-381 | the half of it that goes through the indirect block |
| Files.FileSystem.Iupdate | fs.c:199-215 | the inode on disk is the one in memory, its block logged; no other inode, file or bitmap bit changes |
| Files.FileSystem.FreeDirect | fs.c:398-403 | the direct loop frees and clears every direct block, without panic |
| Files.FileSystem.FreeIndirect | fs.c:405-411 | the indirect loop frees every entry, without panic |
| Files.FileSystem.FreeBlocks | fs.c:398-415 | every block of the inode is freed and every field cleared, without panic |
| Files.FileSystem.Itrunc | fs.c:391-419 | never panics; a block is in use afterwards if and only if it was and did not belong to the inode; size 0 in memory and on disk; no other file or inode changes; every changed block logged |
| Files.FileSystem.ReadChunk | fs.c:451-456 | one turn of the loop reads the bytes of one block of the file and allocates nothing |
| Files.FileSystem.ReadAll | fs.c:451-456 | the loop returns the slice of the file's bytes |
| Files.FileSystem.Readi | fs.c:434-458 | the slice clamped at the end of the file; -1 exactly when the offset is past the end or the sum wraps; nothing is allocated or changed |
| Files.FileSystem.WriteChunk | fs.c:479-485 | one turn of the loop patches the file and logs exactly the blocks it changed, or panics exactly when the blocks it needs are not free |
| Files.FileSystem.WriteAll | fs.c:479-485 | the loop patches the whole range and leaves no hole, taking exactly the blocks by which the file grows and logging every changed block; it panics if and only if they are not free |
| Files.FileSystem.SetSize | fs.c:487-490 | the new size in memory and on disk |
| Files.FileSystem.Writei | fs.c:462-492 | the range replaced and the file extended to max(size, off + n), no holes, no other file or inode changed, the inode on disk still equal to the one in memory; every changed block logged, and with one bitmap block exactly the blocks of the range, the allocated ones' bitmap and indirect block and the inode's; -1 exactly for a bad range, the panic if and only if fewer blocks are free than the file gains, indirect block included |
| Files.ServedWhole | fs.c:479-485 | writing at or before the end of a file without holes leaves it without holes up to the new end |
| Files.NeedsStep | fs.c:356-384 | the blocks bmap needs for one turn of writei are exactly those by which the file grows |
| Files.TouchedMore | fs.c:479-485 | one more turn logs one more file block, and its bitmap and indirect blocks exactly when it is new |
| Files.WriteThenRead | fs.c:434-492 | writei and then readi: the written range reads back as written, and the bytes before and after it as they were |
| Directory.Strncmp | string.c:58-66 | 0 if and only if the two names are the same up to n bytes |
| Directory.Strncpy | string.c:68-79 | the name padded with zeros to n bytes |
| Directory.NameOfPadded | fs.c:553 | a padded name is still that name, also without terminator |
| Directory.MapHas | fs.c:505-529 | a name is bound if and only if some live entry carries it |
| Directory.MapValue | fs.c:505-529 | without repeated names, every live entry is the binding of its name |
| Directory.LookupIsMap | fs.c:505-529 | the first match of dirlookup is the map's binding, and no match means the name is not bound |
| Directory.LinkMap | fs.c:553-556 | a live entry with a new name in a free place adds exactly that binding and keeps names unique |
| Directory.DeadMap | fs.c:553-556 | a dead entry in a free place changes no binding |
| Directory.LinkExactly | fs.c:532-559 | dirlink binds a new name if and only if the inode number is not 0 modulo 65536, and changes no other binding |
| Directory.LinkLosesInode65536 | fs.c:554 | linking inode number 65536 binds nothing |
| Directory.ClearMap | sysfile.c:215-217 | clearing a live entry removes exactly its binding |
| Directory.LinkKeepsDots | fs.c:545-556 | dirlink leaves "." and ".." in the first two entries |
| Directory.ClearKeepsDots | sysfile.c:200-217 | so does clearing any other entry |
| Directory.NewDirectory | sysfile.c:267-273 | create's two links give a new directory exactly "." and "..", in the first two entries |
| Directory.EmptyExactly | sysfile.c:165-178 | with the dots in front, no live entry from the third on if and only if nothing else is bound |
| Directory.Probe | fs.c:514-525 | one turn of dirlookup's loop: panic on a short entry, match, or go on |
| Directory.Dirlookup | fs.c:505-529 | the first live entry with the name and its offset, or none; the panic only on a partial entry |
| Directory.FindFree | fs.c:545-551 | the offset of the first free entry, or the end; the panic only on a partial entry |
| Directory.WriteEntry | fs.c:545-556 | the entry written into that place; the panic only on a partial entry or when the file cannot grow by one entry |
| Directory.Dirlink | fs.c:532-559 | panic on a file that is no directory; on a directory in order, -1 if and only if the name is bound, the panic if and only if it is not and there is no room, otherwise exactly that binding is added and no other file or inode changes |
| Directory.LinkBecame | fs.c:545-556 | writing the new entry into the file through writei adds exactly the binding and keeps the dots |
| Directory.ClearBecame | sysfile.c:215-217 | writing zeros over a live entry through writei removes exactly its binding and keeps the dots |
| Directory.CheckTarget | sysfile.c:208-213 | unlink's checks: the panic if and only if the link count is below 1 or a directory is cut off inside an entry and has nothing else, the refusal if and only if it is a directory with something else in it |
| Directory.ClearEntry | sysfile.c:215-217 | the entry overwritten through writei, without panic |
| Directory.Unlink | sysfile.c:200-217 | on a directory in order: refused if and only if the name is "." or "..", not bound, or names a directory that is not empty; the panic if and only if the target has no link or is cut off inside an entry; otherwise exactly this binding goes, the dots stay and no other file changes |
| Directory.Isdirempty | sysfile.c:165-178 | true if and only if every entry from the third on is dead; the panic if and only if the directory is cut off inside an entry and no entry before that is live |
| FileCrash.TransactionAtomic | log.c:189-199 | a transaction from one consistent file system to another leaves one of the two after any crash and any interrupted boots |
| FileCrash.LoggedIsTransaction | log.c:210-230 | a list of the blocks that the file layer logged names every home block that changed, each once and outside the log region |
| FileCrash.WriteAtomic | fs.c:462-492 | a writei in a transaction whose logged blocks fit the log: after any crash the file behind the inode on disk is the old one or the spliced one, and no other file has changed |
| FileCrash.MkfsLogBelow | log.c:54-66 | on a disk of mkfs the region that initlog takes from the super block lies below the inodes |
| FileCrash.WriteChunkLogged | file.c:139-144 | the same for every chunk of filewrite with no condition on what is logged, on a disk with one bitmap block |
| FileBudget.FootprintCount | fs.c:462-492 | the blocks writei logs are distinct and their number is LogCount of size, offset and length |
| FileBudget.CountedWrite | fs.c:462-492 | a writei in a transaction of its own logs exactly that many blocks |
| FileBudget.ChunkFitsLog | file.c:126-132 | no chunk of filewrite logs more than 17 blocks, so it fits the log of mkfs alone |
| FileBudget.ChunkOverBudget | file.c:132 | a full chunk logs more than MAXOPBLOCKS blocks, whatever the file and the offset |
| FileBudget.FilewriteExact | file.c:132-141 | the first chunk of a write of n bytes keeps to MAXOPBLOCKS for every file and offset if and only if n is at most 3073 |
| SleepWakeup.NextInv | mutex.c:61-107 | every step of any thread in lock, unlock, sleep and wakeup keeps the lock and waker invariant |
| SleepWakeup.NoWakeupIsLost | proc.c:478-535 | at every moment of every run of any number of threads, a thread asleep on a mutex that is not locked has an unlocker between setting UNLOCKED and reaching it in wakeup |
| SleepWakeup.HolderCanGo | proc.c:478-511 | the holder of ptable.lock can take a step, and the holder of mxtable.lock can unless ptable.lock is held |
| SleepWakeup.SleeperIsNotStuck | mutex.c:95-106 | while a thread sleeps on an unlocked mutex some thread can take a step |
| SleepWakeup.NextIsSemaphore | mutex.c:61-107 | the lock bits change only by a successful lock of an unlocked mutex or unlock of a locked one |
| SleepWakeup.TestsExact | mutex.c:76-103 | in every run, the test under the table lock takes the mutex if and only if it is free, and gives it up if and only if it is taken |
| SleepWakeup.LockedIsBalance | mutex.c:61-107 | in every run takings and givings of a mutex alternate: it is locked if and only if one more of them was a taking |
| Mutex.FindAllocated | mutex.c:64-66 | the scan finds a nonzero id exactly when it is allocated, and id 0 exactly when a slot is free |
| Mutex.UnlockKeepsExactly | mutex.c:86-107 | unlock keeps the table in order if and only if the id is not 0 or no slot is free |
| Mutex.UnlockZeroAtBoot | mutex.c:86-107 | unlock of id 0 at boot succeeds and spoils slot 0 |
| Mutex.UnlockRefusesExactly | mutex.c:86-99 | unlock refuses an id that is not allocated if and only if it is not 0 or no slot is free |
| Mutex.LockKeeps | mutex.c:61-85 | lock keeps the table in order; its panic and its -1 characterised |
| Mutex.DeallocKeeps | mutex.c:40-60 | dealloc keeps the table in order and frees the id |
| Mutex.LockThenUnlock | mutex.c:61-107 | unlock undoes a successful lock, by any thread |
| Mutex.MutualExclusion | mutex.c:61-107 | over every sequence of calls and retries by any threads, between two that take a mutex an unlock of it has succeeded |
| Mutex.HeldStays | mutex.c:23-107 | a held mutex is taken by nobody, and only an unlock of its id ends that |
| Mutex.RetryKeepsExactly | mutex.c:76-80 | the retry after a sleep keeps the table in order if and only if its slot has not been freed |
| Mutex.RetryAfterDealloc | mutex.c:76-80 | the calls after which a retry holds a FREE slot |
| Mutex.MutexTable.constructor | mutex.c:12-21 | the table with every slot FREE and the first id 1 |
| Mutex.MutexTable.Scan | mutex.c:64-66 | the index of the first slot with the id |
| Mutex.MutexTable.Alloc | mutex.c:23-39 | the first free slot becomes UNLOCKED with the fresh id and without owner, the others untouched; -1 exactly when none is free |
| Mutex.MutexTable.Dealloc | mutex.c:40-60 | succeeds if and only if the id names an UNLOCKED slot; that slot becomes FREE without id and nothing else changes |
| Mutex.MutexTable.Lock | mutex.c:61-85 | acquired if and only if the id names an UNLOCKED slot, sleeps if and only if a LOCKED one, -1 if and only if none; id 0 panics if and only if a slot is free; only the acquired slot changes |
| Mutex.MutexTable.Retry | mutex.c:76-80 | the exchange on the slot found before: it takes the slot if and only if it is not LOCKED, and changes no other |
| Mutex.MutexTable.Unlock | mutex.c:86-107 | succeeds if and only if the id names a LOCKED slot, by whomever it is held, and only that slot changes; for id 0 the table stays in order exactly when no slot was free |
| Barrier.NextInv | fssp.c:212-226 | every step of any participant keeps the barrier invariant |
| Barrier.NobodyLeavesEarly | fssp.c:212-226 | completed calls of one thread never exceed arrived calls of another |
| Barrier.CallsInStep | fssp.c:212-226 | completed calls of two threads differ by at most one |
| Barrier.UnlockFindsLocked | fssp.c:215-225 | a thread about to unlock finds both turnstiles locked, so the unlock finds LOCKED |
| Barrier.SomebodyCanGo | fssp.c:212-226 | when all participants are inside, one of them can step |
| Barrier.BarrierCorrect | fssp.c:195-226 | the four promises, one token among them, at every moment of every run over any number of rounds |
| BarrierThreads.UnlockSimulates | fssp.c:215-225 | on real mutexes too, every unlock of the barrier finds its mutex LOCKED |
| BarrierThreads.StepSimulates | fssp.c:212-226 | each step of inc_barrier over lock, unlock, sleep and wakeup is one step of the barrier on semaphores or none |
| BarrierThreads.RunProjects | fssp.c:212-226 | every run over sleeping mutexes is, without repetitions, a run of the barrier on semaphores |
| BarrierThreads.TeamCorrect | fssp.c:195-226 | nobody leaves early, calls stay in step and there is one token, over sleeping mutexes |
| BarrierThreads.SomebodyMoves | mutex.c:61-107 | with all participants inside, some thread can step, whoever sleeps |
| BarrierProgress.StepGains | mutex.c:61-107 | every step of every thread, in the barrier or inside lock and unlock, raises one bounded measure |
| BarrierProgress.RoundsComplete | fssp.c:212-226 | in every run of n threads on sleeping mutexes, after a number of steps that depends on n and k alone every thread has completed k calls; no fairness is assumed |
| BarrierProgress.NeverStops | fssp.c:212-226 | and in every state of such a run some thread can step |
| FiringSquad.StepInv | fssp.c:149-194 | every step of a soldier or of main keeps the squad invariant |
| FiringSquad.ReadsRound | fssp.c:169-183 | a thread between rounds sees exactly the synchronous state of its round |
| FiringSquad.ThreadsRunInStep | fssp.c:126-194 | for every number of soldiers, rule and interleaving, the array after round k's second barrier is k simultaneous steps from the initial one |
| FiringSquad.CellsFollowRounds | fssp.c:185-189 | each cell is its soldier's synchronous state, soldiers are at most one store apart, and nobody computes while a neighbour is ahead |
| SquadFiring.StepFires | fssp.c:126-194 | every step keeps: whoever passed a loop test did not fire there, whoever left the loop did |
| SquadFiring.ExitsOnlyByFire | fssp.c:129-169 | in every run a soldier leaves its loop only at a round at which its synchronous state is F, main only when the general's is, and nobody completes such a round |
| SquadFiring.HeadExact | fssp.c:129-169 | at the loop head of round k a thread's step leaves the loop if and only if its synchronous state is F |
| SquadFiring.RoundsComplete | fssp.c:126-194 | while no cell fires in rounds 0 to k some thread can step until all have completed round k, and that takes a number of steps that depends on the number of soldiers and k alone; no fairness is assumed |
| SquadFiring.SquadEnds | fssp.c:126-194 | every run is bounded by the number of soldiers and the first firing round; where it cannot go on, those who fired have left and all others wait in the barrier |
| SquadFiring.AllLeaveExactly | fssp.c:126-194 | all threads leave if and only if all soldiers fire in the first firing round |
| SquadFiring.LoneFiring | fssp.c:169-190 | a rule under which they do not |
| SquadThreads.StepSimulates | fssp.c:149-226 | each step of the squad on sleeping mutexes is one step of the squad on semaphores or none |
| SquadThreads.RunProjects | fssp.c:126-226 | every run on sleeping mutexes is, without repetitions, a run of the squad on semaphores |
| SquadThreads.CrewRunsInStep | fssp.c:126-194 | on sleeping mutexes too, the array after round k's second barrier is k simultaneous steps from the initial one |
| CrewFiring.ExitsOnlyByFire | fssp.c:129-169 | the same law of leaving on sleeping mutexes |
| CrewFiring.HeadExact | fssp.c:129-169 | the loop test on sleeping mutexes leaves if and only if the synchronous state is F |
| CrewFiring.RoundsComplete | fssp.c:126-226 | on sleeping mutexes too, before the first firing somebody can step and every round is completed within a bound |
| CrewFiring.CrewEnds | fssp.c:126-226 | every run ends within a bound, with those who fired out of their loops and all others asleep on post_mx |
| CrewFiring.AllLeaveExactly | fssp.c:126-226 | all threads leave if and only if all soldiers fire in the first firing round |
| Umalloc.InsertOrdered | umalloc.c:33-42 | inserting a block into an ordered coalesced list leaves an ordered coalesced list of the same units plus the block's |
| Umalloc.SpliceInserts | umalloc.c:33-42 | the header writes of free build exactly that list |
| Umalloc.StopsAtSlot | umalloc.c:30-32 | the search test of free holds at exactly the block below bp in address order |
| Umalloc.FreeKeeps | umalloc.c:24-44 | free keeps the heap in order: circular, address-ordered with one wrap, coalesced, disjoint from live blocks, no live block touched |
| Umalloc.GrowKeeps | umalloc.c:54-60 | a region from sbrk enters the heap as a block without disturbing it |
| Umalloc.CarveKeeps | umalloc.c:75-85 | malloc's unlink or split keeps the heap in order and touches no live block |
| Umalloc.UnitsConserved | umalloc.c:24-90 | the units of free and live blocks add up to the units obtained from sbrk |
| Umalloc.UnitsHoldRequest | umalloc.c:69 | the block has room for the request after its header if and only if the 32-bit sum does not wrap |
| Umalloc.SbrkExactly | proc.c:97-116 | growproc fails if and only if a growth reaches the kernel or lacks pages, or a shrinking leaves nothing; what the process then has: exactly the new units more, or those below the new size |
| Umalloc.SbrkBacksExactly | umalloc.c:54 | sbrk gives the units if and only if their bytes are a positive int |
| Umalloc.CoreHoldsRequest | umalloc.c:69 | a block from new core is backed and holds the request if and only if it is at most 0x7FFFFFF0 bytes |
| Umalloc.ZeroByteCore | umalloc.c:54 | a request of 0xFFFFFFF8 bytes asks sbrk for 0 bytes, and sbrk succeeds |
| Umalloc.NegativeCore | sysproc.c:46-57 | a request of 0x80000000 bytes asks sbrk for a negative number, and sbrk succeeds without giving anything |
| Umalloc.FreedExactly | proc.c:107-110 | for every process size, the requests that make sbrk free every page and fail: exactly 8 sizes |
| Umalloc.FreedProcess | proc.c:107-110 | a process of 0x4000 bytes that asks malloc for 0xFFFFBFF8 is one of them |
| Umalloc.BackedExactly | umalloc.c:54-60 | after morecore the heap is backed by the process if and only if sbrk was asked for a positive number of bytes, or took everything from a process without heap |
| Umalloc.WrappingRequest | umalloc.c:69 | a request of 0xFFFFFFF9 bytes gets a block without room |
| SbrkPages.SbrkIsGrowproc | proc.c:97-116 | sbrk as the heap meets it is growproc of the copy-on-write address spaces, with the number of free pages and the size they have |
| SbrkPages.GrantedIsMapped | proc.c:97-116 | all that sbrk grants or leaves to the heap is mapped by the process |
| Umalloc.Heap.constructor | umalloc.c:21-22 | the heap before the first call |
| Umalloc.Heap.FindSlot | umalloc.c:30-32 | the search loop stops, at the free block below bp, wherever freep was |
| Umalloc.Heap.SpliceIn | umalloc.c:33-43 | the header writes turn the chain into the chain of the inserted list |
| Umalloc.Heap.Free | umalloc.c:24-44 | the block joins the free list, the heap stays in order, other live blocks keep their contents |
| Umalloc.Heap.Morecore | umalloc.c:46-61 | at least 4096 units taken for the heap and given to free, or 0 and the list unchanged if and only if sbrk fails; what sbrk really gave, or took away, recorded in every case |
| Umalloc.Heap.InitBase | umalloc.c:70-73 | the first call makes the base block the whole list |
| Umalloc.Heap.CarveOut | umalloc.c:76-82 | the header writes take the block out or split off its tail |
| Umalloc.Heap.TakeFrom | umalloc.c:75-85 | the units become a live block and the heap stays in order |
| Umalloc.Heap.Malloc | umalloc.c:63-90 | 0 if and only if no free block fits and sbrk fails (for a positive number of bytes: the size would reach the kernel or pages are missing), otherwise a fresh live block of the computed units; the loop terminates and asks sbrk once at most, exactly when no free block fits; it stores into no live block; the heap stays backed by the process if and only if a free block fits, the bytes asked for are a positive int, or the process had no heap and lost everything |
| Pipe.SlotOfCounter | pipe.c:92 | wrapping a counter does not disturb its slot |
| Pipe.WrappedDistance | pipe.c:84 | the wrapped comparison decides the true distance |
| Pipe.CounterTests | pipe.c:84-113 | the full and empty tests and the wrapped difference mean what they should |
| Pipe.PutCarries | pipe.c:92 | storing a byte extends what the pipe carries |
| Pipe.TakeCarries | pipe.c:115 | taking one yields the next byte stored and not delivered |
| Pipe.DeliveredIsPrefix | pipe.c:77-120 | over every interleaving, the bytes delivered are a prefix of the bytes stored, and nwrite - nread modulo 2^32 is their difference, at most PIPESIZE |
| Pipe.PipeBuf.constructor | pipe.c:32-35 | an empty pipe with both ends open |
| Pipe.PipeBuf.Close | pipe.c:58-74 | the end closed; freed exactly when both are |
| Pipe.PipeBuf.Write | pipe.c:77-97 | the bytes up to j stored in order; it stops early only on a full pipe |
| Pipe.PipeBuf.Read | pipe.c:99-120 | the next min(n, available) bytes in order; waits or fails exactly on an empty pipe with a writer |
| Grep.SeqPrefix | grep.c:85-96 | a prefix match of a sequence splits at some place |
| Grep.StarPrefix | grep.c:99-106 | a prefix match of c* and a rest is a run of c's and a match of the rest |
| Grep.AtomPrefix | grep.c:93-94 | a prefix match of one character and a rest |
| Grep.Match | grep.c:72-82 | 1 if and only if some substring, a prefix after ^, is in the language of the expression |
| Grep.MatchHere | grep.c:85-96 | 1 if and only if some prefix is, up to the end when $ is last |
| Grep.MatchStar | grep.c:99-106 | 1 if and only if some run of c's is followed by a match |

## Left out

- Devices, boot code, assembly, the shell and the other user programs: hardware plumbing or easy members.
- TLB contents, memory ordering and interrupt masking: steps under a lock are atomic and memory is sequentially consistent.
- Kernel-mode write faults on shared pages: trap.c:83 resolves user-mode faults only, so the refinement covers user stores.
- Releasing still-shared spaces through plain freevm and deallocuvm (exec.c:102, proc.c:108, proc.c:304, vm.c:429): `CowCells.PlainDropAll` and the shrinking steps of `CowRefinement.CowRefinesEager` ask that nothing in the range is shared, and `Cow.PlainUnmapExactly` says why.
- CowRefinement.CowRefinesEager: leaves out shrinking by exactly the size, which `CowRefinement.ShrinkExactly` shows to break the process.
- Allocation of page-table pages: they are always available, so mappages and setupkvm do not fail.
- kfree's panics on addresses outside the pool, and the check for physical page 0: pages are abstract numbers.
- Concurrent faults by several threads of one process.
- inituvm, loaduvm, exec and the page counter of the first process.
- Thread and process lifecycle (create, exit, join, wait) beyond the release of the address space.
- Whether the table of fssp.c:39-90 solves the firing squad problem: rules are arbitrary functions here, and main's limit of 15 soldiers is not used.
- kthread_join and the clean-up after the squad has fired (fssp.c:137-145): a soldier that has fired takes no further step.
- LogLimits.StepReserved: the reservation is for runs in which every call keeps to MAXOPBLOCKS, which `FileBudget.FilewriteExact` shows filewrite to break; without that it is false, by `LogLimits.AppendPanicExact`.
- The loop of filewrite over its chunks.
- FileCrash.WriteAtomic: takes the fit of the logged blocks in the log as a condition; `FileCrash.WriteChunkLogged` proves it for one bitmap block and the chunks of filewrite.
- FileBudget.CountedWrite: the exact count is for one bitmap block, as mkfs makes it; with more of them only "every changed block is logged" is proved.
- Callers' discipline on buffers: runs of `BufferCache` contain only callers that modify busy buffers and log or write them before release.
- Readers that come while a method of `Log` runs: a reader of a logged block is waited for, as bread sleeps, and no new one takes a buffer in between; in `GroupCommit` they come and go between any two block writes.
- Readers of the log region: only the log reads it, so the methods of `Log` ask that held buffers are of home blocks.
- What a commit does after the list has outgrown the log region, past the block write shown to fail; crashes of such a run after its header write.
- Inode cache, link counts, ialloc, path lookup and file descriptors: every inode counts as cached and locked.
- Files.FileSystem.Readi: hands device files to an outcome and does not model devsw.
- Files.FileSystem.Writei: likewise for device files; after a panic only ownership is promised.
- Directory.Dirlink: does not model iput of the inode found when the name is bound.
- Directory.Unlink: stops at the write; the link counts it then decrements are outside the model.
- Umalloc: the number of free pages and the process size are parameters of each call, break addresses count in header units, and use of `malloc` by several threads is not modelled.
- Pipe: sleeping and waking are outcomes; copying to and from user space does not fault.
- The line-buffering loop of grep.c:10-36, mkfs.c beyond its layout, and link counts through unlinked current directories.
