# A verified model of an xv6 kernel and its user programs

This project models, in Dafny 4.11, the state machines and algorithms of an xv6 variant (the teaching
kernel, extended with a lottery scheduler and a block-group disk layout) and proves what they are for:

- **Write-ahead log over the buffer cache over a disk** (`RedoLog`, `BufferCache`, `LoggedDisk`, `Log`,
  `GroupCommit`): crash atomicity of every commit and every recovery, and over whole runs; the cache and the
  disk as one flat block array; the group-commit protocol over all interleavings.
- **Files, block allocation, directories, paths** (`Blocks`, `Bitmap`, `FileBlocks`, `Files`, `Directory`,
  `Paths`): files as byte strings, conservation of blocks, directories as finite maps.
- **The user allocator** (`FreeList`, `Malloc`): the address-ordered ring with splitting and joining.
- **Processes, sleep and wakeup, pipes** (`Processes`, `ProcessTree`, `SleepWakeup`, `Pipe`, `Channels`) and
  the **lottery** (`Lottery`).
- **Page tables** (`PageTable`, `UserMemory`, `VirtualMemory`) over the frame allocator.
- **The shell's parser and grep's matcher** (`Shell`, `ShellRoundTrip`, `ShellInline`, `ShellParser`, `Regex`).
- **The block-group layout** (`BlockGroups`): geometry and statistics.

Code that updates state in place is a class with the source's fields and methods with the source's loops;
each method is proved against functions of the old state, and the lemmas are about those functions. Ghost
fields carry the abstract value (the flat disk, the files, the live heap blocks, the bytes a pipe accepted).
A panic of the source is a result value where the source reaches it on legal input, and a precondition where
it guards against a misuse of the function. A concurrent protocol is a transition system whose steps are the
source's critical sections, and its theorems quantify over every run. The disk is written one block at a
time, a crash may fall between any two writes, and every class method that writes blocks records the images
it leaves. `dafny verify dfyconfig.toml` checks the whole project.

Where the code and what it says of itself differ, the model follows the code:

- `begin_op` reserves `MAXOPBLOCKS` blocks for each operation, but operations that log that many reach the
  "too big a transaction" panic in a log of any size (`GroupCommit.NoSizeIsEnough`): the list can grow to
  `LOGSIZE` blocks, and then even writing a listed block again panics. With one block less to an operation
  the `LOGSIZE` blocks that mkfs gives the log are enough; `GroupCommit.BudgetedWritesFit` gives the exact
  condition on budget and size.
- A writer that finds an empty pipe with a writer's end open, has more than a pipeful to write, and is killed
  or has no reader, fills the pipe and returns without waking readers; no other call ends a wait silently
  (`Channels.PipeDiscipline`, `Channels.KilledWriterLosesWakeup`).
- `deallocuvm` strides over a whole table's worth of pages when it starts inside a missing table; it clears
  its range exactly when no page it strides over is there (`VirtualMemory.DeallocIsComplete`,
  `VirtualMemory.StrideLeavesPage`), which from address 0 is always so.
- `uva2ka` reads through a null entry when a page's table is missing, where it means to return 0; `copyout`
  does not do so exactly when the table of every page it comes to is there (`UserMemory.Defined`,
  `VirtualMemory.Machine.Copyout`).
- malloc's sizes are right in 32-bit arithmetic if and only if `nbytes` is at most 2^31 - 16
  (`Malloc.SizesFit`); one byte more and sbrk is asked to shrink the process, and at 2^32 - 8 for nothing at
  all (`Malloc.SizesMisfit`).
- The shell's `>>` gives the same tree as `>`, so it does not append (`ShellInline.InlineRedirections`).
- The first data block number of each block group is the group's last inode block
  (`BlockGroups.DataMissesMeta`).
- `kill` looks at pids only, so it marks a slot that is not in use exactly when no process has the pid
  (`ProcessTree.KillFindsUnused`), and as fork does not clear the mark, a child can be born killed
  (`ProcessTree.BornKilled`).

## Model

| member | source | states |
|---|---|---|
| RedoLog.WriteHeader | log.c:100-112 | reading a header just written gives back the list written |
| RedoLog.InstallAgain | log.c:68-82 | redo is idempotent: installing over a partly installed image gives the same result |
| RedoLog.InstallApplies | log.c:68-82 | installing the logged copies has the transaction's effect on every home block |
| RedoLog.RecoverySurvivesCrash | log.c:114-121 | a recovery that crashes after any number of writes leaves a disk that still recovers to the same file system |
| RedoLog.CommitPointIsRecoverPoint | log.c:189-199 | from the first header write on, commit writes exactly what recovery would write |
| RedoLog.CommittedRecovers | log.c:189-199 | the image at the commit point recovers to the transaction's effect |
| RedoLog.CommitIsAtomic | log.c:173-199 | a commit that stops after i writes recovers to the old file system for i <= n and to the new one from the header write on |
| RedoLog.HeaderWindow | log.c:189-199 | the header on the disk lists the transaction between the two header writes and is empty at every other point |
| RedoLog.CommitCrash | log.c:173-199 | whichever image of a commit's recorded history a crash leaves, recovery gives all old or all new |
| RedoLog.RecoverCrash | log.c:114-121 | whichever image of a recovery's recorded history a crash leaves, the next recovery gives the same file system |
| RedoLog.CrashSafety | log.c:68-199 | for every sequence of transactions and every crash of each commit and each recovery, the home blocks end as if exactly the transactions that reached their header write had run on a flat disk |
| RedoLog.CommitSwitches | log.c:173-199 | of the images a commit records, the first n recover to the old file system and all others to the transaction's effect |
| RedoLog.RecoverSwitches | log.c:114-121 | every image a recovery records recovers to what it leaves in the end |
| BufferCache.UnlinkKeepsRing | bio.c:127-146 | taking a buffer out leaves one ring over the others, in their order |
| BufferCache.PushFrontKeepsRing | bio.c:39-58 | inserting after the head gives one ring with that buffer first |
| BufferCache.MoveToFrontKeepsRecent | bio.c:127-146 | moving the released buffer to the front keeps ring order equal to order of release |
| BufferCache.FullCache | bio.c:81-97 | when no buffer is eligible, the pinned and held blocks fill the whole cache |
| BufferCache.ReleaseKeepsCoherent | bio.c:127-146 | releasing a buffer that is pinned or agrees with the disk keeps every block's current value on the disk or in a buffer that cannot be recycled |
| BufferCache.AheadIsMarked | bio.c:81-97 | a block whose current value is not on the disk is pinned or held |
| BufferCache.Cache.constructor | bio.c:39-58 | binit makes one ring over the head and all buffers, with nothing cached |
| BufferCache.Cache.FindCached | bio.c:68-79 | the buffer that holds the block, or the head when none does |
| BufferCache.Cache.FindVictim | bio.c:81-92 | the eligible buffer released longest ago, or the head when none is eligible |
| BufferCache.Cache.Bget | bio.c:62-97 | a busy buffer for the block, the cached one or the eligible one released longest ago; waits only on the block's own busy buffer and panics only when no buffer is eligible |
| BufferCache.Cache.Iderw | memide.c:37-59 | one atomic block write of a dirty buffer, or a read of an invalid one; the write is recorded and unpins the buffer |
| BufferCache.Cache.Bread | bio.c:100-112 | the buffer holds the last value written to the block; nothing else changes; it runs out of buffers only when pinned and held blocks fill the cache |
| BufferCache.Cache.SetData | bio.c:8-14 | the caller's write changes that block of the flat array and no other |
| BufferCache.Cache.MarkDirty | log.c:228 | the buffer is pinned: it can be neither recycled nor written home by the cache |
| BufferCache.Cache.Bwrite | bio.c:115-124 | the block reaches the disk in one write and is unpinned |
| BufferCache.Cache.Brelse | bio.c:127-146 | the buffer goes to the front of the ring, the others keep their order, and no contents change |
| Log.SpareBuffer | param.h:10-12 | with NBUF at least the log's size, the pinned blocks leave a buffer over |
| LoggedDisk.ListedIsAll | log.c:173-186 | when only listed blocks are ahead of the disk, the transaction turns the disk into the current value of every block |
| LoggedDisk.CommitDurable | log.c:173-199 | then every image of the commit recovers to the old disk's file system up to the header write and to the cache's from there on, and the last image holds the cache's |
| LoggedDisk.CrashIsStep | log.c:52-199 | a crash at any recorded write of a commit, any crashed recoveries and the boot that recovers make one step of the run |
| LoggedDisk.RunsAreAtomic | log.c:52-230 | every run of updates, commits and crashes refines an atomic disk: calls see the updates since the last crash on top of what was durable then, and a crash keeps exactly the updates of the commits that had written their header |
| Log.LogManager.constructor | log.c:38-47 | the log before initlog: no block listed, no operation, no commit |
| Log.LogManager.InitLog | log.c:52-66 | after recovery the cache and the disk both hold the recovered file system and the log is empty, whichever sound image the machine boots with |
| Log.LogManager.IdleIsSettled | log.c:173-186 | with no buffer held, every block that is not listed has its current value on the disk, and the volume is in order for every step of a run |
| Log.LogManager.WriteLog | log.c:173-186 | the listed blocks go from the cache to the log area, one recorded write each |
| Log.LogManager.WriteHead | log.c:100-112 | one write puts the in-memory list into the header block |
| Log.LogManager.InstallTrans | log.c:68-82 | the logged blocks go home, one recorded write each, and are unpinned |
| Log.LogManager.Commit | log.c:189-199 | every image the commit leaves is one of its points, and when only listed blocks are ahead of the disk each recovers to the old file system or to the one in the cache, with the header write as the switch; one that runs to its end is the commit step of the run, with the current value of every block on the disk, unpins exactly the committed blocks and empties the list, and with no buffer held it always does |
| Log.LogManager.RecoverFromLog | log.c:114-121 | redoes what the header lists and clears it, never out of buffers, and every image on the way recovers to the same file system |
| Log.LogManager.ReadHead | log.c:84-96 | the in-memory list becomes the one on the disk |
| Log.LogManager.BeginOp | log.c:124-140 | enters exactly when no commit runs and the reservation fits, and is then the protocol's Begin |
| Log.LogManager.LogWrite | log.c:209-230 | the block is listed once and pinned and nothing reaches the disk; fails exactly when the list is full |
| Log.LogManager.UpdateBlock | log.c:201-230 | bread, a change, log_write and brelse come to the update step of the run: that block's current value changes, it is listed once, and nothing reaches the disk |
| Log.LogManager.EndOp | log.c:143-171 | is the protocol's End: the last operation out becomes the committer |
| GroupCommit.StepInv | log.c:124-230 | every step of every process keeps the protocol's invariant |
| GroupCommit.GroupCommitSafety | log.c:124-230 | in every reachable state a commit excludes operations, there is at most one committer, logged block numbers are distinct, and what is logged plus all unspent budgets is at most LOGSIZE |
| GroupCommit.NoProtocolPanic | log.c:143-230 | the "log.committing" and "log_write outside of trans" panics are unreachable and no block is logged during a commit |
| GroupCommit.WaitersHaveAWaker | log.c:124-171 | whenever begin_op must wait, some process is in an operation or committing |
| GroupCommit.BudgetedWritesFit | log.c:209-230 | with a budget of new blocks to each operation, no log_write of a new or a listed block panics if and only if the budget is 0, or below MAXOPBLOCKS with the most that can be listed below the on-disk log's size less one |
| GroupCommit.NoSizeIsEnough | log.c:209-230 | with the budget that begin_op reserves some log_write panics, whatever the log's size |
| GroupCommit.ReachFilled | log.c:124-230 | states in which two operations have logged any number of new blocks up to their budgets, on a list of ten, are reachable |
| SleepWakeup.StepKeepsLocks | proc.c:794-849 | the two locks have one holder each, in step with where each process is |
| SleepWakeup.StepKeepsPromise | proc.c:794-849 | every step keeps the promise: who is about to sleep still has to, or the lock's holder owes a wakeup |
| SleepWakeup.NoLostWakeup | proc.c:794-849 | on every run of a monitor whose sections wake the channels they release, whenever its lock is free a sleeper's wait condition is still true |
| SleepWakeup.UndisciplinedLosesWakeup | proc.c:794-849 | one section that ends a wait condition and wakes nobody has a run that leaves a process asleep for good |
| Channels.LogIsDisciplined | log.c:124-171 | every critical section of the log that ends begin_op's wait condition wakes its channel |
| Channels.LogLosesNoWakeup | log.c:124-171 | whenever log.lock is free, whoever sleeps in begin_op still has to |
| Channels.PipeDiscipline | pipe.c:58-120 | a call of the pipe ends a wait without a wakeup if and only if it is the silent fill: a write of more than a pipeful to an empty pipe whose writer's end is open, by a killed writer or without a reader |
| Channels.PipeLosesNoWakeup | pipe.c:58-120 | on every run without a silent fill, a sleeping reader sees an empty pipe with a writer open and a sleeping writer a full one with a reader open |
| Channels.KilledWriterLosesWakeup | pipe.c:77-96 | for every write of more than a pipeful, a run in which a killed writer's silent fill leaves a reader asleep beside a full pipe |
| Pipe.SlotOfWrapped | pipe.c:77-120 | wrapping a counter modulo 2^32 does not move its slot, since 512 divides 2^32 |
| Pipe.WrappedTests | pipe.c:77-120 | with at most PIPESIZE bytes in flight the wrapped counters still decide empty and full |
| Pipe.Pipe.constructor | pipe.c:21-55 | an empty pipe, both ends open |
| Pipe.Pipe.WriteSome | pipe.c:77-96 | the bytes accepted are the next ones of the caller's, in order; how it ends is decided by full, closed and killed |
| Pipe.Pipe.Read | pipe.c:99-120 | the bytes delivered are the next ones accepted, as many as there are up to n; with the invariant, delivered is always a prefix of accepted with at most PIPESIZE between them |
| Pipe.Pipe.Close | pipe.c:58-74 | one end closes, the other's sleepers are woken, and the pipe is freed exactly when both ends are closed |
| Bitmap.PutBitTests | fs.c:66-69 | setting or clearing a bit changes that bit of the byte and no other |
| Bitmap.BitAfterPut | fs.c:144-150 | changing one block's bit on the disk changes no other block's bit |
| FileBlocks.SlotsDisjoint | fs.c:567-601 | no block is held by two slots, of one inode or of two |
| FileBlocks.WriteChunk | fs.c:708-714 | writing part of a mapped block writes that part of its file and of no other |
| FileBlocks.FreedExactly | fs.c:608-636 | when an inode has given up its slots, the blocks in use are exactly the metadata and the others' |
| Files.FileSystem.constructor | mkfs.c:298-312 | a bitmap in which exactly the metadata is in use, and empty files |
| Files.FileSystem.Balloc | fs.c:55-80 | the first free block, marked and zeroed, nothing owned changes; it runs out only when every bit is set |
| Files.FileSystem.Bfree | fs.c:137-152 | the bit of a block to be freed is set, so "freeing free block" is unreachable; only that bit changes |
| Files.FileSystem.Bmap | fs.c:567-601 | the address of the file's block, across the direct and indirect parts; a block already there is found without any change, and otherwise only that slot and a missing indirect block's are filled; it runs out only when every bit is set |
| Files.FileSystem.ReadI | fs.c:651-682 | exactly the abstract slice, refused exactly when off is past the end or off+n overflows; nothing changes |
| Files.FileSystem.WriteI | fs.c:686-723 | replaces exactly bytes off..off+n of the abstract file, extending it when needed; refused exactly when off is past the end or the file would pass MAXFILE blocks; no other file changes; when blocks run out, a first part of the bytes is written |
| Files.FileSystem.ITrunc | fs.c:608-636 | the file is empty and exactly its blocks, the indirect block included, are free again |
| Files.ReadBack | fs.c:651-723 | what was written is read back, and bytes outside the write are read as before |
| Directory.EntryRoundTrip | fs.c:784-785 | an entry made from a name and a number gives back the name cut to DIRSIZ and the number's low 16 bits |
| Directory.MapAfterAdd | fs.c:784-787 | writing a free entry adds its binding to the directory's map and no other |
| Directory.MapAfterErase | sysfile.c:291-293 | clearing an entry removes its binding and no other |
| Directory.NameCmp | fs.c:728-732 | the 14-byte comparison is equality of the cut names |
| Directory.DirLookup | fs.c:736-760 | map lookup, with the offset of the entry found; nothing changes |
| Directory.DirLink | fs.c:763-790 | fails exactly when the name is present, else adds exactly this binding, or none when the number is a multiple of 2^16, keeps names unique and the size a multiple of the entry size, and changes no other file; panics only on a full disk or a directory of the largest size |
| Directory.Erase | sysfile.c:291-293 | removes exactly the binding at the offset, keeping the directory well formed |
| Paths.SkipElem | fs.c:807-830 | the first non-empty slash-separated component, cut to DIRSIZ, and a rest whose components are the others; nothing exactly when none is left |
| Paths.Namei | fs.c:836-875 | the inode that the path's components lead to by map lookup, from the root or the current directory |
| Paths.NameiParent | fs.c:836-882 | the directory of the last component, and that component |
| FreeList.FindPlace | umalloc.c:29-32 | a block being freed has exactly one place on the ring |
| FreeList.InsertKeepsRing | umalloc.c:33-42 | joining or not on either side leaves a ring with one address wrap and no two adjacent free blocks |
| FreeList.InsertKeepsUnits | umalloc.c:33-42 | free neither loses nor makes units |
| FreeList.InsertKeepsHeap | umalloc.c:24-44 | free keeps the whole heap: ring, disjointness of free and live blocks, and their sum |
| FreeList.TakeWhole | umalloc.c:76-77 | an exact fit leaves the list and becomes live, the rest of the heap as it was |
| FreeList.TakeTail | umalloc.c:78-82 | the end of a larger block becomes live, the list keeps its shape and the units their sum |
| FreeList.FreshBlock | umalloc.c:46-60 | memory from sbrk above everything obtained is disjoint from every block |
| Malloc.Units | umalloc.c:69 | the size computed holds nbytes after the header, and is the smallest that does |
| Malloc.UnitsOverflow | umalloc.c:69 | the 32-bit unit count holds nbytes if and only if nbytes is at most 2^32 - 8 |
| Malloc.SizesFit | umalloc.c:46-69 | the 32-bit unit count and the bytes asked of sbrk are both right if and only if nbytes is at most 2^31 - 16 |
| Malloc.SizesMisfit | umalloc.c:46-69 | at 2^31 - 15 sbrk is asked for -2^31 bytes, and at 2^32 - 8 for none while the new block claims 2^29 units |
| Malloc.Allocator.FindSpot | umalloc.c:29-32 | the search ends from any starting point, at the element after which the block belongs |
| Malloc.Allocator.Free | umalloc.c:24-44 | exactly this block stops being live, and the heap stays sound |
| Malloc.Allocator.Morecore | umalloc.c:46-60 | at least 4096 new units join the list, and some element is then large enough |
| Malloc.Allocator.Lap | umalloc.c:74-89 | one lap finds an element that is large enough with its predecessor, or there is none on the list |
| Malloc.Allocator.Malloc | umalloc.c:63-90 | a new live block of the right size, disjoint from all others, or null only when sbrk refuses; sbrk is asked at most once and the lap after it succeeds; units are conserved |
| Processes.ProcessTable.AllocProc | proc.c:116-133 | the first unused slot becomes EMBRYO with a fresh pid; none exactly when no slot is unused |
| Processes.ProcessTable.Wakeup1 | proc.c:832-840 | exactly the sleepers on the channel become runnable |
| Processes.ProcessTable.PassChildren | proc.c:447-454 | every child becomes init's, and init wakes if there is a zombie among them |
| Processes.ProcessTable.Exit | proc.c:442-470 | the interleaved wakeups and reparenting come to one simultaneous change of every slot |
| Processes.ProcessTable.Scan | proc.c:481-506 | the first zombie child, or no child, or children and no zombie |
| Processes.ProcessTable.Wait | proc.c:472-512 | reaps that child, returns -1 when there is none to wait for or the caller is killed, else sleeps on itself; nothing else changes |
| Processes.ProcessTable.Kill | proc.c:854-872 | marks the first slot with the pid and wakes it, or fails exactly when no slot has it |
| ProcessTree.TreeStep | proc.c:313-512 | every step of every interleaving keeps the shape of the process tree |
| ProcessTree.ExitKeepsWaiters | proc.c:419-470 | an exit leaves no process asleep in wait beside a zombie child |
| ProcessTree.ParentsAreAlive | proc.c:313-512 | on every run, each process but init that is past EMBRYO has a parent that is neither UNUSED nor EMBRYO nor ZOMBIE |
| ProcessTree.WaitersHaveReason | proc.c:472-512 | on every run, a process asleep in wait has a child and no zombie child |
| ProcessTree.CollectedByForkerOrInit | proc.c:313-512 | on every run, however many steps lie between, a child is collected by the process that forked it or by init |
| ProcessTree.CollectedOnce | proc.c:419-512 | on every run, whoever exited is a zombie or was collected and never both, is collected at most once, and its pid is not used again |
| ProcessTree.KillReachesProcess | proc.c:854-872 | on every run, the pid of a process in use leads kill to that process |
| ProcessTree.KillFindsUnused | proc.c:854-872 | on every run, the slot kill finds is not in use if and only if no process in use has the pid |
| ProcessTree.FlagChanges | proc.c:116-512 | the killed flag of a slot changes only when kill sets it and when wait collects the slot |
| ProcessTree.BornKilled | proc.c:116-135 | a run in which kill(0) marks an unused slot and the next fork's child starts out killed |
| Lottery.MendedIsWorthTheSame | proc.c:174-208 | resetting an out-of-range nice value does not change its tickets |
| Lottery.WinnerIsUnique | proc.c:691-707 | no draw has two winners |
| Lottery.SomebodyWins | proc.c:691-707 | a draw has a winner if and only if it is below the sum of the runnable tickets |
| Lottery.FairShare | proc.c:691-707 | over the draws below that sum a runnable process wins exactly as often as it has tickets, any other never |
| Lottery.FactorsOfM | proc.c:36 | 16873 is 47 times 359, both prime |
| Lottery.CoprimeToM | proc.c:36 | a number is coprime to M if and only if neither prime divides it |
| Lottery.SquareStaysCoprime | proc.c:970-971 | squaring modulo M keeps a number coprime to M |
| Lottery.Scheduler.constructor | proc.c:36-37 | the initial state 8 is coprime to M |
| Lottery.Scheduler.Prng | proc.c:965-977 | the state stays below M and coprime to it, so never 0, the 32-bit square never wraps, and the draw is below the bound |
| Lottery.Scheduler.GetTicketAmount | proc.c:174-208 | the tickets of the slot, its nice value put back in range and nothing else changed |
| Lottery.Scheduler.PickWinner | proc.c:691-707 | the winner of the draw, nobody exactly when the draw is at or past the runnable sum; only nice values of the runnable slots looked at are mended |
| PageTable.AddTable | vm.c:51-63 | hanging an empty table into a directory changes no mapping of any address space |
| PageTable.MapPage | vm.c:83-87 | a new mapping keeps one use for every frame |
| PageTable.UnmapPage | vm.c:267-273 | a mapped frame is used for that page alone, and clearing the entry keeps one use for every other frame |
| PageTable.PagesDisjoint | vm.c:314-342 | no frame is two user pages, of one address space or of two |
| PageTable.UserPagesAreLow | vm.c:386-397 | only pages below KERNBASE are open to the user |
| UserMemory.FlatWriteMore | vm.c:409-421 | one page's share of a copy extends a flat write by its bytes |
| VirtualMemory.Machine.constructor | kalloc.c:39-61 | the frames handed over at boot are on the free list, each once |
| VirtualMemory.Machine.Kalloc | kalloc.c:124-143 | the head of the list, no longer free |
| VirtualMemory.Machine.Kfree | kalloc.c:65-105 | the frame is on the list once and filled with ones; no address space changes |
| VirtualMemory.Machine.WalkAlloc | vm.c:45-65 | the table for the page exists afterwards, at most one frame is taken and no mapping changes |
| VirtualMemory.Machine.MapUserPage | vm.c:74-94 | exactly one entry changes, to the frame and flags given |
| VirtualMemory.Machine.MapKernelRange | vm.c:74-94 | a stretch of pages is mapped to consecutive frames and nothing else changes |
| VirtualMemory.Machine.Setupkvm | vm.c:132-150 | a new directory with the kernel half mapped and no user page; every other address space as it was |
| VirtualMemory.Machine.Allocuvm | vm.c:224-247 | zeroed writable user pages from oldsz to newsz and no other change; 0 at or past KERNBASE, oldsz when not growing |
| VirtualMemory.Machine.Deallocuvm | vm.c:253-278 | every page from where the loop first looks up to oldsz is gone, its frame free, and nothing else has changed |
| VirtualMemory.DeallocIsComplete | vm.c:262-276 | the whole range is cleared if and only if no page strided over at the start was there |
| VirtualMemory.NothingStridden | vm.c:262-276 | from the start of a table, or inside one that is there, nothing is strided over |
| VirtualMemory.NextTableStridden | vm.c:262-276 | from inside a missing table the loop passes the first pages of the next one |
| VirtualMemory.StrideLeavesPage | vm.c:262-276 | a space with a page that deallocuvm down to one page leaves mapped |
| VirtualMemory.Machine.Freevm | vm.c:282-297 | every page, table and directory frame of the space is freed exactly once, and no other frame and no other space changes |
| VirtualMemory.Machine.Copyuvm | vm.c:314-342 | the child has the parent's flags and bytes below sz and no other user page, on frames that were free, and the kernel half; every space there was, the parent's included, and every frame in use is unchanged |
| VirtualMemory.NewPagesWereFree | vm.c:331-334 | the pages of a new address space were free frames, so disjoint from everything in use |
| VirtualMemory.Machine.Copyout | vm.c:402-423 | comes to a page without a table exactly when the call is not Defined; else a flat write of a prefix of the bytes, all of them on success, stopping at the first page that is not open, and no mapping and no other space changes |
| Shell.WordEndIsFirst | sh.c:302-306 | a word ends at the first white space, symbol or end of line |
| Shell.WordToken | sh.c:272-315 | a token of kind 'a' is one whole word |
| Shell.Line | sh.c:351-366 | the mutual recursion of the parser terminates on the remaining input and never moves back |
| ShellRoundTrip.RoundTrip | sh.c:334-453 | for every tree of well-formed words, at most MAXARGS-1 to a command, parsing its fully parenthesised printing gives the tree back |
| ShellRoundTrip.RoundTripAt | sh.c:351-453 | the same at any position of any line, before the end or a closing parenthesis |
| ShellRoundTrip.WordLimit | sh.c:443-447 | the bound is exact: a command of printed words is accepted if and only if it has fewer than MAXARGS |
| ShellInline.InlineRedirections | sh.c:422-453 | with redirections anywhere among the words, argv is the words in order and the redirections go around it in order, the last one outermost; `>>` is the same as `>` |
| ShellRoundTrip.ArgsParse | sh.c:436-452 | printed words are read as exactly those words |
| ShellParser.LineOk | sh.c:351-453 | for every input, each word the parser records is one whole word of the line, and no command has more than MAXARGS-1 |
| ShellParser.NextToken | sh.c:272-315 | is the grammar's token |
| ShellParser.ParseRedirs | sh.c:381-404 | is the grammar's redirections |
| ShellParser.ParseExec | sh.c:422-453 | is the grammar's simple command, its panics included |
| ShellParser.ParseBlock | sh.c:406-420 | is the grammar's block |
| ShellParser.ParsePipe | sh.c:368-379 | is the grammar's pipeline |
| ShellParser.ParseLine | sh.c:351-366 | is the grammar's line |
| ShellParser.EndsAreOutside | sh.c:469-498 | no recorded end lies inside a recorded word |
| ShellParser.NulTerminate | sh.c:456-500 | a 0 at the end of every word of the tree, and no other character changes |
| ShellParser.ParseCmd | sh.c:334-349 | the grammar's tree, after which every argv and file string reads back as exactly its slice of the line; on a syntax error the line is untouched |
| Regex.HereFirst | grep.c:84-106 | a pattern fits at a place if and only if its first item takes a piece there and the rest fit behind it |
| Regex.Match | grep.c:72-82 | true if and only if some stretch of the line, from its start under '^', splits into one piece for each item of the pattern |
| Regex.MatchHere | grep.c:84-96 | true if and only if such a stretch starts here |
| Regex.MatchStar | grep.c:98-106 | true if and only if such a stretch starts here with a run of the starred character |
| BlockGroups.SizedIsLaid | fs.h:85-119 | the size relations of the header give groups of inode blocks and data blocks with ndata = ipbg * MAXFILE |
| BlockGroups.HeaderConstants | fs.h:85-119 | with 512-byte blocks: 29 inodes, 4 inode blocks, 4060 data blocks, 4065 blocks to a group |
| BlockGroups.InodesInjective | fs.h:141-152 | no two inodes share a block and a slot |
| BlockGroups.InodesOnDisk | fs.h:146-152 | every inode's block is below FSSIZE, for any number of groups |
| BlockGroups.DataInjective | fs.h:159-166 | no two data block numbers share a place |
| BlockGroups.DataOnDisk | fs.h:159-166 | every data block is below FSSIZE |
| BlockGroups.DataMissesMeta | fs.h:159-172 | a data block is a bitmap or inode block if and only if its number is a multiple of BPB, and then it is the stats block |
| BlockGroups.StatsSpareInodes | fs.h:169-174 | an inode in the stats block is never in its last slot, where the record is |
| BlockGroups.CountIsMembers | fs.c:940-955 | the running count is the number of allocated inodes of the group seen so far |
| BlockGroups.GroupCountIsAll | fs.c:940-955 | a group's count is the number of all allocated inodes from 1 up whose group it is |
| BlockGroups.AllocatedKept | fs.c:957-964 | writing the records leaves every inode as it was |
| BlockGroups.GroupDisk.CountGroup | fs.c:944-955 | the allocated inodes among the next ones |
| BlockGroups.GroupDisk.FillStats | fs.c:930-968 | every group's record holds its count and percentage, and no other byte of the disk changes |

## Left out

- Copy-on-write fork, page faults and reference counts.
- The block-group `balloc` and `ialloc`, `clearFSStats` and the printing of statistics: the model of that
  layout is its geometry and `fillFSStats`; the classic layout is the one used for allocation and contents.
- The 64-byte encoding of inodes on the disk, device inodes, link counts and inode reference counts.
- Spinlock internals, interrupts, drivers, boot code, segments and the TLB; a critical section is one step.
- `exec`, system-call argument fetching, the console, `printf`, and user programs other than the shell's
  parser, the allocator and the matcher.
- Global ticket accounting (`totalTickets`) and the unused `binarySearch` and `updateTicketHolders`.
- `grep`'s line buffering, and `runcmd` of the shell.
- BufferCache.Cache.Brelse: requires that the caller has logged or written back what it changed, because a
  clean buffer may be recycled and a change in it lost.
- BufferCache.Cache.Bget: returns instead of sleeping when the block's buffer is busy; its retry is a new call.
- Log.LogManager.Commit: one call from start to end; a reader's bread and brelse between its block writes are
  not interleaved with it. It stops, where the source would sleep, when a buffer it needs is held by another
  process.
- Log.LogManager.RecoverFromLog: requires a header whose count and block numbers fit the disk, as mkfs and
  commit leave it; the source does not check them.
- Malloc.Allocator.Malloc: computes sizes without 32-bit overflow (`Malloc.SizesFit` says exactly when that
  is right), and sbrk grants memory above all it granted before.
- Malloc.Allocator.Free: requires a block that malloc returned and that has not been freed since.
- ProcessTree.CollectedOnce: pids are unbounded, where the source's counter is an int.
- Processes.ProcessTable.Exit: the closing of files and of the current directory before it is not modelled.
- Processes.ProcessTable.Wait: the freeing of the collected child's kernel stack and address space is not
  modelled.
- VirtualMemory.Machine.Copyout: promises nothing of a call that is not Defined, because the source then reads
  a table entry at a null address.
- VirtualMemory.Machine.Kalloc: requires a frame on the list, because on an empty list the source computes an
  address from a null entry instead of returning 0; so the out-of-memory paths of its callers are not modelled.
- VirtualMemory.Machine.Setupkvm: requires one frame for each table of the kernel half, and takes the stretches
  of kmap[] as a parameter, because they depend on where the kernel is linked.
- Page tables work on page numbers and frames; reinterpreting a frame's bytes as table entries is not modelled.
- ShellParser.ParseCmd: allocation of the tree's nodes does not fail.
