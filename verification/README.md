# A model of the xv6 kernel's core, and proofs about it

The repository is xv6, a small Unix-like teaching kernel, with a stride scheduler added. This
project models its most intricate parts in Dafny and proves what they are for.

| part | files | what is proved |
|---|---|---|
| Redo log and buffer cache | RedoLog, LogProtocol, LogRuns, LogOverrun, BufferCache, LogBuffers, LogReaders, KernelLog, LogPanic | crash atomicity with crashes during recovery, the exact condition under which concurrent operations are atomic, the cache as a refinement of the disk, the exact condition under which each round of a commit succeeds |
| Files | FsLayout, FsSteps, FsBytes, FileSystem, FsCrash, Mkfs | a file is a byte sequence: readi is slice, writei is splice; exclusive ownership of blocks with an exact free map, from the image mkfs writes on; after a crash anywhere, files as they were between operations |
| User heap | Malloc | the Kernighan and Ritchie allocator: order, coalescing, disjointness, conservation, termination |
| Processes | Stride, ProcTable, SleepWakeup, SleepLock, PipeProtocol, Pipe | proportional share, no starvation, the fork/exit/wait table, no lost wakeup in sleep locks and pipes, sleep locks without deadlock or livelock, pipes as queues |
| Memory | PageTables, VmSteps, VmBytes, Vm | exclusive ownership of physical pages through page tables and the free list, and what each operation does to the bytes a process sees |
| Text | Regex, ShellSyntax, ShellText, ShellReads, ShellSpells, Shell | grep's matcher decides its language; the shell's parser accepts exactly the shell's language and gives each line its one meaning |

`Common` and `Division` hold definitions and facts that several parts share.

## How the code is modelled

* Code that updates state in place is a class with methods and loops: the buffer cache, the log, the
  file system, the heap, the process table, the scheduler, pipes, page tables, the parser's cursor.
  Each method is proved against a function of the old state, and the properties are lemmas about
  that function. What those functions say is also stated without them, in the bytes on disk
  (`FsBytes`), the bytes a process sees (`VmBytes`), the characters of the line (`ShellText`), the
  fields of the process table and products of tickets.
* Concurrency is a state machine over atomic steps. `LogProtocol` interleaves any number of
  operations, the single disk writes of a commit, and crashes; log_write is two steps, its test
  without log.lock and its append under it. `SleepWakeup` takes each lock acquisition, each release
  and each update under the condition lock as a step; `SleepLock` and `PipeProtocol` are its
  clients, line by line, and the methods of `Pipe` follow paths of `PipeProtocol`. `ProcTable` takes
  each section under ptable.lock as a step. The methods of `KernelLog` carry the run of
  `LogProtocol` they have performed as ghost state, and a commit takes a schedule of what readers
  outside operations do between its rounds.
* A crash keeps any prefix of the disk writes. Each `bwrite` is one atomic write of one block.
* The file system records its log_writes. `FsCrash` runs any list of calls, marks the boundaries,
  and puts the log_writes into runs of the log protocol, one operation after another.
* A panic, or a wait for something another process holds, ends a method early. Its contract then
  says what had been done by then. The memory disk of memide.c is the disk.
* sbrk's answer is a parameter: it lies above the list's base, and nothing obtained before lies
  behind it. Which page is mapped after a request of nothing or less follows growproc. The linker's
  `end` and `data` symbols are parameters.
* Disk and log sizes are parameters. BSIZE, NDIRECT, PIPESIZE, MAXARGS, PHYSTOP and KERNBASE have
  the source's values.
* Words, counters and offsets wrap at 32 bits where the source relies on it: malloc's unit count and
  sbrk's argument, readi's and writei's offset check, the pipe's counters, mappages' addresses. Free
  map, indirect blocks, inode records and data are bytes. Pass values are unbounded integers.
* Physical and virtual addresses are counted in pages, and a kernel pointer to a page is its
  physical page number.

## What the proofs found

* log_write tests the size of the transaction before it takes log.lock (log.c:216-221), so two
  operations can pass when there is room for one. In the log area mkfs makes, which has LOGSIZE
  blocks, write_log then copies a block over the first inode block, without a panic, and a crash
  leaves no consistent disk: `LogOverrun.Overruns` builds the run from any disk. `AtomicExactly`
  proves that one block more of log area is the exact remedy for operations within their budgets,
  and `LoneCheckFits` that a test under the lock would be one too.
* log_write panics on a full header even when the block is already logged and would be absorbed. An
  operation with budget left can meet that panic if and only if log.size is at most LOGSIZE
  (`StopsExactly`). That operations stay within their budget is a hypothesis: one chunk of filewrite
  can touch more than MAXOPBLOCKS blocks.
* commit needs one clean buffer that nobody references in every round, because the logged blocks are
  pinned in the cache. With n blocks pinned and fewer than NBUF - n buffers in readers' hands there
  is one. Readers use buffers outside operations (file.c:97-113), and log_write lets n reach NBUF -
  1 with the sizes of the source; then one reader makes bget panic in the middle of commit:
  `LogPanic.ReaderPanic` gets there from boot.
* An aborted pipewrite returns without waking readers (pipe.c:86-88). `Pipe.Write` shows that this
  loses a wakeup exactly if the pipe was empty with both ends open when the section began, and
  `KilledWriterLosesWakeup` is a run that does.
* mkfs rounds the root directory's size up even if it is a multiple of BSIZE (mkfs.c:161), and then
  the last block is a hole: `RootRounding` gives the exact condition and `RootHole` an example,
  thirty files. readi and writei fill such a hole without writing the inode back unless the file
  grows (`Readi`, `Writei`), and from then on the disk is no sound file system (`StaleDisk`): the
  block is marked and no record has it.
* With negative tickets the pass is negative, and the scan of the table, which takes a negative
  least pass for none yet, can pick a process that is not the least: `PicksLeast` says when.
* With more than 10000 tickets the stride is 0 (proc.c:317, proc.c:660), and the process is
  dispatched for ever once chosen: `ZeroStrideStarves`.
* malloc's unit count wraps for sizes near 2^32 (`PayloadCovers`), and from 2^31 - 15 bytes on the
  byte count passed to sbrk is negative or zero as an int, so that morecore uses memory it was never
  given: `MallocSound` gives the exact condition. It traps, or, when the process ends inside a page,
  succeeds with a block that overlaps everything to come: `Unbacked` is such a pair of calls.
* mappages maps a page for an empty range, and only one for a range that comes round to its first
  page: `MapRange` gives the exact condition.
* setupkvm and copyuvm drop pages when memory runs out; the contracts of `SetupKvm` and `CopyUvm`
  say which. A failed allocuvm keeps the page tables it made.
* sh.c parses `>>` to the same command as `>`, although its comment names it append: file and mode
  are the same, so both are spellings of one kind of output redirection.

## Model

| member | source | states |
|---|---|---|
| `RedoLog.HeaderRoundTrip` | log.c:85-113 | A header read back after write_head gives exactly the block numbers that were written, in order; writing the same header twice is writing it once |
| `RedoLog.CommitParts` | log.c:175-200 | commit's disk writes, one by one: the n log copies, the header with n entries, the n home blocks with the cached contents, the header with no entries |
| `RedoLog.RawIsCommit` | log.c:175-200 | The writes commit makes from any header, fitting or not, copied block by block as they are read, are the commit trace of the crash lemmas whenever the header fits the log |
| `RedoLog.RecoveryErases` | log.c:115-122 | A complete recovery leaves an empty header, touches no other block of the log, and brings the home blocks to the state after installing the logged ones |
| `RedoLog.CrashedRecovery` | log.c:69-122 | A recovery cut off after any number of its writes leaves a disk that can be recovered again, to the very same result |
| `RedoLog.CrashedAttempts` | log.c:69-122 | Any number of recoveries, each cut off anywhere, leave the final recovery's result unchanged |
| `RedoLog.CommitTailIsRecovery` | log.c:190-200 | From the header write on, the writes of commit are exactly the writes recovery would make from that disk |
| `RedoLog.RecoveringCommitted` | log.c:190-200 | Recovery from the disk right after the header write gives every logged home block its cached contents and leaves the others alone |
| `RedoLog.CrashedCommit` | log.c:175-200 | A commit cut off after k writes recovers to the old home blocks if k is at most n, and to the new ones otherwise; a complete commit needs no recovery |
| `RedoLog.CrashAtomicity` | log.c:69-200 | Crash atomicity: any crash point of commit, then any number of crashed recoveries, then one complete recovery give all old or all new home blocks and a header with n = 0 |
| `LogProtocol.StepKeeps` | log.c:125-231 | Every step of begin_op, of log_write's test without the lock and of its append under it, of end_op, of each single disk write of a commit, of its end, of a crash and of boot keeps the invariant tying disk, cache, header and the history of edits, as long as the header fits the log |
| `LogProtocol.RecoversToCommitPoint` | log.c:115-122 | Whatever is on the disk under the invariant, recovery gives the state at the last commit point |
| `LogProtocol.CommitSettles` | log.c:190-200 | After the writes of a commit, disk and cache agree and the header is empty |
| `LogProtocol.RunInv` | log.c:125-231 | The invariant holds in every state of every run, of any length, any number of processes and any number of crashes, in which the header has fitted so far |
| `LogProtocol.GroupAtomicity` | log.c:125-231 | In every interleaving in which the header fits the log, the disk always recovers to a state made of a prefix of the edits, and no operation has edits on both sides of that cut or is still running with edits before it |
| `LogProtocol.CacheIsWholeHistory` | log.c:211-231 | Readers always see the effect of every edit made so far, whatever a commit in progress has written |
| `LogProtocol.CommitKeepsCache` | log.c:175-200 | No prefix of a commit's writes changes a home block as its readers see it |
| `LogProtocol.CommitPointsLast` | log.c:145-172 | Once committed, edits stay committed and in order through all later steps and crashes, in every run |
| `LogProtocol.LogReservation` | log.c:125-231 | If operations stay within MAXOPBLOCKS new blocks: lh.n plus all unspent budgets is at most LOGSIZE, logged numbers are distinct, no operation is outstanding during a commit, and an operation with budget left meets log_write's panic exactly when n >= log.size-1 |
| `LogProtocol.RunBase` | log.c:125-231 | What holds in every run, the header fitting or not: outstanding counts the running operations, committing is set exactly during a commit and no operation runs then, logged numbers are distinct, and no operation has edits on both sides of the last commit point |
| `LogProtocol.BudgetsFit` | log.c:211-231 | If operations keep their budgets and the log area has more than LOGSIZE blocks, the header fits the log in every state of every run |
| `LogProtocol.OverrunBound` | log.c:216-221 | If at most m operations at a time stand between log_write's test and its lock, the header never exceeds the limit of the test by more than m - 1 blocks, less those still on their way |
| `LogProtocol.LoneCheckFits` | log.c:216-221 | If no two operations are ever between test and lock at once, the header fits the log in every run, whatever the budgets and sizes |
| `BufferCache.UnlinkRing` | bio.c:132-133 | Bypassing a buffer leaves the ring of the other buffers intact in both directions, in the same order |
| `BufferCache.PushRing` | bio.c:134-137 | Linking a buffer behind the head makes it the first of the ring and keeps both directions consistent |
| `BufferCache.TakenKeepsView` | bio.c:69-91 | Taking a buffer for a key, by hit or by recycling a clean unused one, changes no block as readers see it and no assigned key is held twice |
| `BufferCache.SetKeeps` | bio.c:61-141 | A change of one buffer that agrees with the disk on every block keeps the ring, the uniqueness of keys and everybody's view |
| `BufferCache.PinKeeps` | log.c:211-231 | Changing a valid buffer and marking it dirty changes the view of exactly its block |
| `BufferCache.SpareBuffer` | bio.c:78-92 | While pinned blocks and referenced buffers together are fewer than NBUF, bget finds a buffer to recycle |
| `BufferCache.ReaderTakesLast` | bio.c:78-92 | With a block pinned in every buffer but one, a single process holding that one leaves bget nothing to recycle |
| `BufferCache.Cache.constructor` | bio.c:38-56 | binit makes one ring of all NBUF buffers, none valid, so that readers see the disk |
| `BufferCache.Cache.Lookup` | bio.c:69-76 | Finds a buffer with the key if and only if there is one, although it follows the ring and not the array |
| `BufferCache.Cache.Victim` | bio.c:81-91 | Finds the least recently released buffer that is unused and clean, and reports none only if there is none |
| `BufferCache.Cache.Bget` | bio.c:61-93 | Returns the holder of the key or else recycles the least recently used clean buffer; panics exactly when neither exists; nobody's view changes |
| `BufferCache.Cache.Iderw` | memide.c:38-60 | Writes a dirty buffer to its disk block or fills an invalid one; its panics are exactly the four conditions of the source; the view is the same before and after |
| `BufferCache.Cache.Bread` | bio.c:96-106 | Gives a locked buffer with the latest contents; waits exactly when another process has the block's buffer locked, keeping the reference bget took; panics exactly when the block does not exist, or it is not cached and no buffer is clean and unreferenced; no disk block changes |
| `BufferCache.Cache.Resume` | bio.c:75-105 | Once the lock is free, the process that waited goes on with the reference it kept and gets the latest contents; it takes no second reference |
| `BufferCache.Cache.Modify` | log.c:211-231 | The caller's store with B_DIRTY set: the block's view becomes the new data, the disk keeps the old, the block joins the pinned ones |
| `BufferCache.Cache.Bwrite` | bio.c:109-116 | One block goes to the disk in one write; disk, view and trace advance by it and the block is no longer pinned |
| `BufferCache.Cache.MoveToFront` | bio.c:132-137 | The six pointer assignments move one buffer to the front and keep the order of the others |
| `BufferCache.Cache.Brelse` | bio.c:120-141 | Both halves together: the last release makes the buffer most recently used, other releases leave the order; view, disk and pins are untouched |
| `BufferCache.Cache.Unlock` | bio.c:123-126 | Releasing the buffer's lock keeps the caller's reference, so nobody can recycle the buffer before the second half |
| `BufferCache.Cache.Unref` | bio.c:128-140 | Dropping the reference, also when another process has locked the buffer meanwhile, keeps ring, view and pins, and reorders the ring only for the last reference |
| `LogBuffers.RoomToCommit` | log.c:175-200 | With n blocks pinned and fewer than NBUF - n buffers referenced by readers there is a clean unreferenced buffer, in whichever round of a commit |
| `LogBuffers.ReaderStopsCommit` | file.c:97-113 | With NBUF - 1 blocks logged, one process reading outside any operation takes the last buffer and commit's condition fails |
| `LogBuffers.CopyFits` | log.c:75-76 | If only the log uses its area and the home block is pinned, a block copy has room if and only if there is a buffer to recycle and the home block is not locked |
| `LogReaders.OneCall` | file.c:97-113 | A reader's bread, its going on after a wait, or its brelse changes no disk block, no view and no pin, and leaves the log area to the log |
| `LogReaders.Readers` | file.c:97-113 | The same for any number of calls of any readers |
| `LogPanic.ReaderPanic` | log.c:145-188 | At the sizes of the source, from boot by calls alone: three operations within ten blocks each log 29, a process outside any operation reads a thirtieth, the operations end, and the commit cannot get a buffer for its first log block |
| `LogOverrun.BothPass` | log.c:216-226 | In a log area of at most LOGSIZE blocks, from any recoverable disk: a run in which every operation keeps its budget, two operations pass the test when there is room for one, both append, and the header reaches log.size entries without a panic |
| `LogOverrun.Overruns` | log.c:175-226 | The run goes on into write_log: a block of the file system that nobody has edited is overwritten, and recovery from the crash there yields no prefix of the edits at all |
| `LogOverrun.AtomicExactly` | log.c:125-231 | For operations that keep their budgets, every run is atomic at every moment if and only if the log area has more than LOGSIZE blocks |
| `LogOverrun.SecondStops` | log.c:216-217 | In the same logs there is a run within budgets that reaches log_write's panic with an operation that has budget left |
| `LogOverrun.StopsExactly` | log.c:216-217 | begin_op's reservation keeps operations with budget left from that panic in every run if and only if the log area has more than LOGSIZE blocks |
| `LogPanic.OneBlockShort` | mkfs.c:25 | With the sizes of param.h and the log area mkfs makes, neither atomicity nor freedom from the panic holds for all runs within budgets; with one more block of log area both do |
| `KernelLog.Log.BreadBoth` | log.c:75-76 | The two reads of a block copy give two different locked buffers with the latest contents, and succeed whenever the cache has room for the copy, whatever other buffers are in use |
| `KernelLog.Log.BrelseBoth` | log.c:79-80 | Releasing the two buffers leaves every other buffer, the view and the pins as they were |
| `KernelLog.Log.CopyBlock` | log.c:75-80 | One round of write_log or install_trans is one disk write of the other block's latest contents; the written block is unpinned, and the references and locks of everyone else are as before; it cannot succeed while the home block is locked, or without a buffer for the log block |
| `KernelLog.Log.Round` | log.c:69-82 | One round behind any calls of readers: with only the log in its area and the logged blocks pinned, it succeeds if and only if, at that moment, there is a buffer to recycle and no reader has the home block, and the same holds for the next round |
| `KernelLog.Log.WriteLog` | log.c:175-188 | The loop writes the log copies in order, with readers between its rounds; stopped anywhere, a prefix of them; the round it stops in is the first that finds no buffer to recycle or its home block in a reader's hands |
| `KernelLog.Log.InstallTrans` | log.c:69-82 | The loop writes the home blocks in order, with readers between its rounds; stopped anywhere, a prefix of them; it unpins the logged blocks one by one and stops in the first round that finds no buffer or a held home block; on a fresh cache it never stops |
| `KernelLog.Log.ReadHead` | log.c:85-96 | The in-memory header becomes the list recorded on disk |
| `KernelLog.Log.FillHeader` | log.c:107-110 | The loop builds the header image: the count, the n entries in order, and the old words behind them |
| `KernelLog.Log.WriteHead` | log.c:101-113 | One disk write of the header; the words behind the last entry keep their old values |
| `KernelLog.Log.RecoverFromLog` | log.c:115-122 | Wherever it stops, the disk has received a prefix of the recovery trace and recovers to the same state; on a fresh cache of two or more buffers it always completes, leaving an empty log |
| `KernelLog.Log.LogPhase` | log.c:193-195 | The half of commit up to the header write produces exactly that prefix of the commit trace, and every round has what it needs or is the last |
| `KernelLog.Log.InstallPhase` | log.c:196-198 | The other half continues the trace from the header write to the erased header, under the same conditions round by round |
| `KernelLog.Log.Commit` | log.c:190-200 | Among any calls of readers: wherever it stops, recovery finds the home blocks all as on disk before or all as in the cache. With the logged blocks pinned and the log area left to the log, each of its 2n + 2 rounds succeeds if and only if it finds a buffer to recycle and its home block free; without readers on the way it completes if and only if nothing is logged or one buffer is clean and unreferenced at the start |
| `KernelLog.Log.LogWrite` | log.c:211-231 | Test and append with nobody in between: two steps of the protocol by the given operation; panics exactly when the header is full or no operation is outstanding, also for a block it would absorb; else history, header and cache gain the block |
| `KernelLog.Log.LogCheck` | log.c:216-219 | The test without the lock: a step of the protocol, or a panic exactly where the protocol has no such step |
| `KernelLog.Log.LogAppend` | log.c:221-231 | The rest of log_write, whatever has come in between: a step of the protocol; the header fits afterwards if operations keep their budgets and the log area has more than LOGSIZE blocks, or if the room the test saw is still there |
| `KernelLog.Log.Record` | log.c:221-230 | The section under the lock, whoever has logged blocks since the test: the header gains the block once, in order, the pinned blocks remain the logged ones, and it reports exactly whether the header still fits the log |
| `KernelLog.Log.BeginOp` | log.c:125-141 | Succeeds if and only if the protocol allows an operation to begin now, and then extends the run by that step; otherwise the caller sleeps and nothing has changed |
| `KernelLog.Log.EndOp` | log.c:145-172 | Extends the run by the end of the operation and, if it was the last one, by the disk writes of the commit, one by one among readers' calls, and its end; then committing is clear again and the disk holds what the cache held; the commit stops exactly where a round lacks a buffer or its home block |
| `KernelLog.Log.CommitRun` | log.c:158-170 | commit's disk writes and its end are protocol steps; its rounds succeed under the exact conditions of Commit |
| `KernelLog.Log.Recover` | log.c:65 | Boot: recovery's disk writes and its end are protocol steps, and on a fresh cache of two buffers or more they all happen |
| `KernelLog.Log.constructor` | log.c:53-64 | A log switched on with any disk is at the start of a run of the protocol |
| `KernelLog.Log.Atomic` | log.c:125-231 | Group atomicity for the class itself: whatever calls have been made and wherever they stopped, as long as the header has fitted the log, a crash now recovers the disk to a prefix of the log_writes that splits no operation and holds none of an unfinished one, and readers see all of them |
| `FsLayout.GetPut` | fs.c:372-376 | Writing entry j of an indirect block changes that 32-bit entry and no other, byte by byte |
| `FsLayout.DinodeRoundTrip` | fs.c:208-224 | An inode record written into a block reads back field by field, and the seven other records of the block are untouched, byte by byte |
| `FsLayout.TableUpdate` | fs.c:208-224 | Writing record i changes entry i of the inode table on disk and no other, whatever block it lies in |
| `FsLayout.FlippedBits` | fs.c:66-68 | Setting or clearing one bit of the free map changes that block's bit and no other block's, whatever byte and map block it lies in |
| `FsLayout.ReferencedOnce` | fs.c:354-382 | A block is referenced by at most one direct, indirect or indirect-pointer slot over all inodes |
| `FsBytes.RecordMeans` | fs.h:29-39 | A block of 512 bytes holds eight records; the one 64 * s bytes in holds type, device numbers and link count as two bytes each, the size and thirteen addresses as four, low byte first, if and only if the s-th record reads so |
| `FsBytes.UpdateMeans` | fs.h:38-42 | Writing record i sets its 64 bytes to that layout, in block inodestart + i / 8, and changes no other byte of the disk |
| `FsBytes.MarkMeans` | fs.h:44-48 | Block b is in use exactly if bit b % 8 of byte b % 4096 / 8 of block bmapstart + b / 4096 is set |
| `FsBytes.AddrMeans` | fs.h:24-26 | File block bn is at address bn of the inode below 12, and up to 139 at the four bytes 4 * (bn - 12) of the indirect block |
| `FsBytes.BytesMean` | fs.c:454-461 | Byte x of a file is byte x % 512 of the block of file block x / 512, or 0 if there is none |
| `FsSteps.AttachDirect` | fs.c:360-370 | Giving a free block to an empty addrs entry keeps ownership exclusive and the map exact, and changes one slot |
| `FsSteps.AttachIndirect` | fs.c:372-376 | The same for an entry stored inside an indirect block, although a disk block changes |
| `FsSteps.StoreStep` | fs.c:482-489 | Storing into a file's block changes exactly the file bytes at those offsets; no other byte of any file, no slot and no map bit changes |
| `FsSteps.StoreSplices` | fs.c:482-489 | The bytes of the file become the splice of the old ones and the stored data, also past the old end |
| `FsSteps.SpliceSplice` | fs.c:482-489 | Two adjacent writes are one write of the concatenation |
| `FsSteps.BlockBytes` | fs.c:456-460 | A run of bytes inside one block is that run of the file's bytes, on both sides of the direct/indirect boundary |
| `FsSteps.Emptied` | fs.c:389-417 | Clearing every slot of one inode leaves every other file's slots and bytes unchanged and ownership exclusive |
| `FsSteps.MetaWrite` | fs.c:214-222 | A write before the free map changes no slot, no map bit and no byte of any file |
| `FileSystem.FileSystem.constructor` | fs.c:272-299 | Mounting a sound disk: the inodes in memory are the 64-byte records of the inode table, byte for byte, and every invariant of the operations holds |
| `FileSystem.FileSystem.Balloc` | fs.c:56-78 | Returns the lowest block whose bit in the map is clear, sets that bit, zeroes the block and changes nothing else on the disk; panics exactly when every bit is set |
| `FileSystem.FileSystem.Bfree` | fs.c:81-96 | Clears the block's bit in the map and no other; no block outside the map changes |
| `FileSystem.FileSystem.GiveDirect` | fs.c:360-370 | Allocation for an addrs entry fails only on a full disk and otherwise changes that one slot |
| `FileSystem.FileSystem.GiveIndirect` | fs.c:372-376 | Allocation for an indirect entry fails only on a full disk and otherwise changes that one slot |
| `FileSystem.FileSystem.Bmap` | fs.c:354-382 | For any file, with holes or without: a block that is there is returned and nothing changes; a missing one is allocated, with the indirect block if that is missing too, each owned once, and no other slot of any file changes; what it returns is the address stored for that block; panics exactly from 140 blocks on or on a full disk |
| `FileSystem.FileSystem.Readi` | fs.c:432-463 | For any file, with holes or without: returns exactly the bytes of the range as they lie in the file's blocks, zeros where there is a hole, cut at the end; refuses exactly when the offset is past the end or offset plus count wraps at 2^32; no file changes and no inode record on disk; the inode in memory gains blocks exactly if the range has a gap |
| `FileSystem.FileSystem.ReadBlocks` | fs.c:449-461 | The loop gives the bytes of the range, keeps every file's contents, and changes nothing at all in a file system without holes |
| `FileSystem.StaleDisk` | fs.c:354-382 | When inodes in memory have blocks that their records on disk lack, no assignment of owners makes the disk sound: there is one if and only if the records are up to date |
| `FileSystem.FileSystem.WriteChunk` | fs.c:482-489 | One round of the loop splices its bytes into the file and leaves all other files alone |
| `FileSystem.FileSystem.WriteBlocks` | fs.c:482-490 | The whole loop splices the data into the file's blocks, filling holes on the way, leaves the inode table on disk alone, and stops only on a full disk |
| `FileSystem.FileSystem.SetSize` | fs.c:492-495 | The grown size goes to the record on disk together with all block addresses, and no other record changes |
| `FileSystem.FileSystem.Writei` | fs.c:467-497 | For any file: byte by byte it holds the data in their range and its old bytes elsewhere, and grows exactly as far as the data reach; no byte of another file changes; it is refused exactly past the end or beyond 140 * 512 bytes, and then changes nothing; the panic means a full disk; the disk is the old one with the log_writes of the call replayed; records that were up to date stay so if and only if the file grew or the range had no gap |
| `FileSystem.FileSystem.Iupdate` | fs.c:208-224 | Record i of the inode table becomes the inode in memory, in its 64 bytes on disk; no other byte of the disk changes, so every other record, every file and every map bit stays |
| `FileSystem.FileSystem.TruncDirect` | fs.c:396-401 | The direct blocks, and no others, leave the free map's used set |
| `FileSystem.FileSystem.TruncIndirect` | fs.c:403-411 | The blocks the indirect block names, and no others, leave the used set |
| `FileSystem.FileSystem.FreeBlocks` | fs.c:389-414 | After both loops and the indirect block exactly the slots of this inode are free |
| `FileSystem.FileSystem.Itrunc` | fs.c:389-417 | Every block the inode owns is freed once and nothing else is; the freeing-free-block panic is unreachable; other files keep their bytes |
| `FileSystem.FileSystem.Iput` | fs.c:319-334 | Frees the inode and its blocks exactly when the last reference to a loaded inode without links is dropped; any other call changes nothing but the reference count |
| `FileSystem.FileSystem.Ialloc` | fs.c:185-205 | Takes the lowest free inode from 1 up, whose record becomes empty with the new type, and panics only if there is none; every file keeps its bytes |
| `FsCrash.WholeOperations` | log.c:125-231 | In every run of operations one after another, with any number of crashes, recovery gives the disk after a whole number of operations |
| `FsCrash.CrashConsistency` | fs.c:1-10 | Wherever any run stops, recovery yields a sound file system (blocks owned once, map exact, no block past a file's end, inode table in order) with every file as it was after a whole number of operations |
| `FsCrash.CallsSurvive` | fs.c:1-10 | For the log of any calls with a sound file system at each boundary: in every run of the protocol that performs them in order, every crash recovers to one of the boundaries reached |
| `FsCrash.Perform` | fs.c:185-497 | One call of writei, iput or ialloc keeps everything the next call needs, and keeps the records on disk up to date unless it patches a gap; its panics are those of the source |
| `FsCrash.RunCalls` | fs.c:185-497 | Any list of such calls on a file system just mounted: in every run that performs them, every crash leaves exactly the files between two calls, up to the first call that patches a gap, with no assumption on the states in between |
| `FsCrash.CallCommits` | log.c:145-172 | A crash during or after one logged call recovers the home blocks from before the call or those after all its log_writes |
| `FsCrash.AtomicWrite` | fs.c:467-497 | writei inside begin_op and end_op: unless it patches a gap without growing the file, in every run that makes its log_writes a crash at any point leaves the file's bytes all old or all new, all other files as they were, and a sound file system |
| `Mkfs.Image.constructor` | mkfs.c:94-115 | The zeroed image: no block in use from nmeta on, a blank inode table |
| `Mkfs.Image.IndirectEntry` | mkfs.c:273-284 | The entry of the indirect block is found or becomes freeblock++, and no other slot changes; it gives up only when the image is full |
| `Mkfs.Image.BlockFor` | mkfs.c:269-286 | iappend's own bmap: finds the block of a file block or takes freeblock++, once or twice; the blocks in use stay exactly nmeta up to freeblock, each owned by one slot |
| `Mkfs.Image.Iappend` | mkfs.c:255-297 | The file grows by exactly the bytes given, no other file changes, and freeblock advances by exactly the blocks that takes; it gives up if and only if the file would pass MAXFILE blocks or the image has too few left |
| `Mkfs.Image.AppendFile` | mkfs.c:152-153 | Copying a file in pieces of a block appends all its bytes in order |
| `Mkfs.Image.Ialloc` | mkfs.c:223-235 | The next inode number becomes an empty typed inode with one link |
| `Mkfs.Image.Winode` | mkfs.c:183-195 | One record of the inode table changes and no file does |
| `Mkfs.Image.Balloc` | mkfs.c:237-251 | The loop sets the first `used` bits of the map block and no others, and asserts exactly that there are fewer than 4096 |
| `Mkfs.MapWritten` | mkfs.c:165 | After any list of appended files, balloc(freeblock) makes the free map exact: the marked blocks are the metadata and the blocks files own |
| `Mkfs.Image.FixRoot` | mkfs.c:158-163 | The root's size is rounded up and written back; every file's blocks reach to its size afterwards if and only if the root's size was not a whole number of blocks, and the image is sound if and only if the root stays below MAXFILE blocks |
| `Mkfs.RootRounding` | mkfs.c:158-163 | For a directory whose blocks reach to its size, they reach to the rounded size if and only if the size is not a multiple of BSIZE |
| `Mkfs.RootHole` | mkfs.c:161 | With thirty files the root is 512 bytes long and its second block, which the rounded size includes, does not exist: reading the entry behind the last one meets a gap |
| `Mkfs.Image.AddFile` | mkfs.c:130-156 | One file more: a new inode with the bytes, typed as a file, and one more entry at the end of the root, with all earlier files kept, if and only if there is room for both |
| `Mkfs.Image.Fill` | mkfs.c:117-168 | mkfs finishes if and only if inodes, blocks, addresses and the one map block suffice for the files and no name has a slash; then the image holds the files and the directory, and the root's bytes give, sixteen at a time, inode 1 for . and .. and inode 2 + f for the name of file f, cut at fourteen bytes, padded with zeros and without a leading underscore; the map marks exactly the blocks below freeblock, there is no hole if and only if the directory's length was not a whole number of blocks, and the image is sound if and only if that length was below MAXFILE blocks |
| `Mkfs.ListingNames` | mkfs.c:117-156 | The bytes mkfs appends to the root are the entries of ., .. and the files in order, each a two-byte inode number, low byte first, and a name of fourteen bytes |
| `Mkfs.RootNames` | mkfs.c:117-163 | The same entries stand in the bytes of the root directory as they lie in its blocks on the image |
| `Mkfs.MakeAndMount` | mkfs.c:94-168 | mkfs and then the mount, holes included: the base case of the invariant of the file system, with exactly the given files, typed, and the names the directory gives them |
| `Malloc.PayloadCovers` | umalloc.c:69 | The units malloc computes are one more than the fewest that cover the requested bytes, for requests up to 2^32 - 8; for larger ones the sum wraps, one unit is left, and the request is not covered |
| `Malloc.AskedIs` | umalloc.c:51-54 | The int sbrk is given is the signed 32-bit number congruent to eight times the units, at least 4096 of them |
| `Malloc.AskedExactly` | umalloc.c:47-54 | sbrk, whose parameter is an int, is asked for the units morecore goes on to use if and only if they are fewer than 2^31 bytes |
| `Malloc.MallocSound` | umalloc.c:47-69 | A request is covered by the units computed and those are really asked for if and only if nbytes is at most 2^31 - 16 |
| `Malloc.AskedForNothing` | umalloc.c:54 | 0x80000000 bytes give sbrk a negative count and 0xFFFFFFF8 bytes give it zero, though the unit count does not wrap for either |
| `Malloc.MappedIs` | proc.c:122-139 | After an sbrk of zero or less the old end of the process lies in a mapped page if and only if that page starts below the new size, which is the old size plus the count, or the old size if the sum is negative |
| `Malloc.UpperStep` | umalloc.c:33-37 | Joining the freed block with its upper neighbour, or linking it, gives an address-ordered list with the same free units plus the freed ones |
| `Malloc.LowerStep` | umalloc.c:38-42 | Joining with the lower neighbour, or linking, completes the circular list and loses no unit |
| `Malloc.JoinsAll` | umalloc.c:33-42 | After both joins no two free blocks are adjacent, and one of them is at least as large as the freed block |
| `Malloc.FreeStep` | umalloc.c:24-44 | Freeing a live block keeps every heap invariant: one cycle in address order, no adjacent free blocks, live blocks disjoint, units conserved |
| `Malloc.TakeStep` | umalloc.c:75-84 | Taking units from the tail of a large enough block, or all of it, keeps every heap invariant, and the new live block overlaps no other |
| `Malloc.GrantStep` | umalloc.c:52-59 | Core obtained from sbrk enters as one live block disjoint from everything |
| `Malloc.Heap.constructor` | umalloc.c:21-22 | The empty heap before first use satisfies the invariant |
| `Malloc.Heap.FindPlace` | umalloc.c:30-32 | The circular search stops for every block that is not on the list and finds its place in address order, also below the lowest and above the highest |
| `Malloc.Heap.Free` | umalloc.c:24-44 | The block leaves the live ones, its units join the free ones exactly, and some free block is at least that large; freed above all others it is the end of the last one |
| `Malloc.Heap.Morecore` | umalloc.c:46-61 | A granted request adds exactly the units from brk on, nu or 4096 of them, and leaves a free block of the wanted size; a refused one changes nothing; if the byte count does not fit an int the store of the header traps exactly unless the old end of the process lies in a page still mapped, and then a block enters the list of which no unit was obtained |
| `Malloc.Heap.Carve` | umalloc.c:76-84 | The returned block has exactly the wanted units and was not live |
| `Malloc.Heap.FirstUse` | umalloc.c:70-73 | The first call sets up the degenerate circular list of size 0 |
| `Malloc.Heap.ScanStep` | umalloc.c:74-89 | One step of the scan meets a fit, or has seen every block without one when it is back at freep |
| `Malloc.Heap.Malloc` | umalloc.c:63-90 | Terminates with at most one morecore, called if and only if no free block fits; for requests whose core fits an int it fails only if sbrk refuses, and else returns a new block of the wanted units, overlapping no live one, with all units conserved; for larger ones that need core it traps, or hands out the block at the old end of the process, of which no unit was obtained |
| `Malloc.Unbacked` | umalloc.c:46-90 | malloc(40000) leaves the end of the process inside a page; malloc(0xFFFFFFF8) then succeeds with 2^29 units that were never obtained |
| `Malloc.FreedTop` | umalloc.c:33-42 | A block freed above all others joins the last free block or becomes the last one, and every other free block stays |
| `Stride.Scheduler.Pass` | proc.c:288-329 | For every table whose runnable processes have tickets: dispatches the process a scan of the table prefers, which becomes RUNNING with one more dispatch and a pass larger by g, where g * tickets <= 10000 < (g + 1) * tickets, with the signs turned for negative tickets; no other slot changes; whatever the table is when it comes back, the rest of the loop dispatches nobody; none is dispatched exactly when none is RUNNABLE |
| `Stride.Scheduler.Pick` | proc.c:293-306 | The first loop: it settles on a runnable slot and its pid, or on none exactly if none is runnable |
| `Stride.SettledPreferred` | proc.c:296-304 | Where the first loop settles, said without the loop: the last runnable process if its pass is negative, else the lowest slot of least pass among the runnable ones behind the last negative one |
| `Stride.PreferredUnique` | proc.c:296-304 | There is one such process |
| `Stride.Scheduler.SetTickets` | proc.c:655-664 | For any number: zero is the divide fault, with the zero already stored and the pass kept; else the pass becomes g with g * tickets <= 10000 < (g + 1) * tickets, negative for negative tickets, and 0 exactly beyond 10000 tickets of either sign; no other process changes |
| `Stride.StrideIs` | proc.c:317 | The stride is the largest number whose product with the tickets is at most 10000; for negative tickets the same in absolute value, with a minus sign |
| `Stride.PicksLeast` | proc.c:296-304 | The scan picks the lowest slot of least pass if and only if no runnable pass is negative or that slot is the last runnable one |
| `Stride.NegativeTicketsMislead` | proc.c:655-664 | Tickets of -1 give pass -10000, and then a later slot of pass 1 is picked over it |
| `Stride.ChosenUnique` | proc.c:296-304 | There is one process a scan may choose |
| `Stride.PassGap` | proc.c:288-330 | Among always-runnable processes no pass gets ahead of another by more than one stride or the initial gap, after any number of scans |
| `Stride.PassCounts` | proc.c:316-317 | A process's pass has grown by its stride for each dispatch |
| `Stride.ProportionalShare` | proc.c:288-330 | Starting from pass = stride, dispatch counts of always-runnable processes satisfy k_p * t_q * (10000 - 10000 % t_p) <= (k_q + 1) * t_p * (10000 - 10000 % t_q) for all p and q, for ever, with t the tickets: k_p / t_p and (k_q + 1) / t_q compare up to the rounding of the strides, and exactly if the tickets divide 10000 |
| `Stride.WaitingUsesTurns` | proc.c:288-330 | While q waits, each dispatch uses up one of a number of turns fixed at the start, whatever sleeps, wakes or exits; unused slots have none |
| `Stride.NoStarvation` | proc.c:288-330 | A process that stays RUNNABLE is dispatched after at most the sum over the other slots of max(0, floor((pass_q - pass_p) / stride_p) + 1) dispatches |
| `Stride.TurnsEach` | proc.c:288-330 | While q waits, process p of t tickets is dispatched k times only if (k - 1) * (10000 - 10000 % t) <= (pass_q - pass_p) * t |
| `Stride.ZeroStrideStarves` | proc.c:317 | With more than 10000 tickets the stride is 0, and a chosen process is chosen for ever |
| `ProcTable.Processes.AllocProc` | proc.c:35-78 | Makes the first UNUSED slot an embryo with the next pid, 1 ticket, pass 1 and count 0; fails exactly if every slot is used or there is no kernel stack, and then no slot is in another state than before |
| `ProcTable.Processes.ClaimSlot` | proc.c:41-53 | The section under ptable.lock, a step of the table protocol: the first UNUSED slot gets a new pid, or nothing changes if all are used |
| `ProcTable.Processes.Wakeup1` | proc.c:575-583 | Field by field: every process sleeping on the channel becomes RUNNABLE, no other state and no other field changes, and no slot is left sleeping on it; for a channel that is no process, a step of the table protocol |
| `ProcTable.Processes.Exit` | proc.c:188-228 | Field by field, and as a step of the table protocol: the process is a ZOMBIE; whoever slept on its parent is RUNNABLE, and whoever slept on init if one of its children is a zombie; all its children belong to init; nothing else changes |
| `ProcTable.Processes.Wait` | proc.c:232-271 | Reaps the first zombie child, whose slot becomes UNUSED with pid 0, no parent and no kill mark, and returns its pid; returns -1 exactly when there is no child or the caller is killed; else sleeps on itself; each a step of the table protocol |
| `ProcTable.Processes.Kill` | proc.c:597-615 | Marks the first process with the pid and makes it RUNNABLE if it sleeps, and changes nothing else, as a step of the table protocol; fails exactly if there is none |
| `ProcTable.ExitKeeps` | proc.c:188-228 | exit keeps: distinct pids, parents that live, no waiter with a zombie child, although it reparents and dies in one section |
| `ProcTable.StepKeeps` | proc.c:35-271 | Every critical section of allocproc, fork, exit, wait, sleep, wakeup, kill and the scheduler keeps the table invariant |
| `ProcTable.Lifecycle` | proc.c:35-271 | In every reachable state with ptable.lock free: pids of used slots are distinct and below nextpid, every parent is a live slot, a process asleep in wait has no zombie child, and every pid is returned by wait at most once |
| `SleepWakeup.StepKeeps` | proc.c:537-592 | Every step of sleep and wakeup keeps the invariant that a sleeper whose condition holds is owed a wakeup by the holder of the condition lock |
| `SleepWakeup.NoLostWakeup` | proc.c:537-592 | For any number of processes and channels and every run: if a process is asleep and its condition holds, the lock is held by a process that still has to call wakeup on that channel |
| `SleepWakeup.WakeupNotBlocked` | proc.c:552-560 | A waker can be kept from ptable.lock only by a process that is about to be SLEEPING and releases it in its next step |
| `SleepWakeup.PayDebts` | proc.c:586-592 | From every state of the invariant the lock holder can finish its wakeups, after at most one step of a process that holds ptable.lock, and reach a state in which it may release the lock |
| `SleepLock.SleepLockSafety` | sleeplock.c:22-42 | In every run at most one process holds a sleep lock, and a process asleep while the lock is free is owed a wakeup by whoever holds the spinlock, so nobody sleeps on a free lock once that is free |
| `SleepLock.LockStepKeeps` | sleeplock.c:22-42 | Each line of acquiresleep and releasesleep keeps mutual exclusion and the wakeup invariant, with no rule but the order of the lines |
| `SleepLock.KeepsDiscipline` | sleeplock.c:32-42 | releasesleep never gives up its spinlock with a wakeup owed, because it clears, wakes and releases in that order |
| `SleepLock.FreeStep` | sleeplock.c:22-42 | While the lock is free, every line of the two functions by any process, a kill and a new acquiresleep included, lowers one number, except the line that takes the lock |
| `SleepLock.FreeLockIsTaken` | sleeplock.c:22-42 | No livelock: in every run that starts with the lock free, somebody takes it within six steps per process, whatever the schedule |
| `SleepLock.FreeLockMoves` | sleeplock.c:22-42 | No deadlock: while the lock is free and a process is in acquiresleep, a process already inside the two functions can take a step |
| `PipeProtocol.KeepsDiscipline` | pipe.c:59-121 | With nobody killed, pipewrite, piperead and pipeclose never give up the pipe's lock owing a wakeup, by the order of their lines |
| `PipeProtocol.PipeStepKeeps` | pipe.c:59-121 | Every step of any number of readers, writers and closers keeps the invariant of the pipe |
| `PipeProtocol.PipeNoLostWakeup` | pipe.c:59-121 | In every run in which nobody is killed, with the pipe's lock free: a sleeping reader means the pipe is empty and open for writing, a sleeping writer means it is full and open for reading |
| `PipeProtocol.KilledWriterLosesWakeup` | pipe.c:86-88 | A run in which a killed process writes one byte more than fits into an empty pipe and returns, leaving a reader asleep with 512 bytes to read |
| `Pipe.Counters` | pipe.c:85-116 | The 32-bit counters decide empty and full correctly and index the ring correctly, however often they have wrapped |
| `Pipe.Pipe.constructor` | pipe.c:33-36 | A new pipe is empty and open at both ends |
| `Pipe.Pipe.Put` | pipe.c:93 | A stored byte goes to data[nwrite % 512] behind all stored ones, overwrites no unread one, and nwrite counts the bytes stored modulo 2^32 |
| `Pipe.Pipe.Take` | pipe.c:116 | The byte taken is data[nread % 512], the oldest unread one, and nread counts the bytes read modulo 2^32 |
| `Pipe.Pipe.Write` | pipe.c:78-98 | One critical section of pipewrite stores the next bytes in order and stops exactly at the end, at a full pipe, or at a closed or killed one; it wakes every channel whose condition it made true, except that an aborted write wakes nobody, which loses a wakeup exactly if the pipe was empty with the write end open |
| `Pipe.Pipe.Read` | pipe.c:100-121 | piperead returns the oldest unread bytes in order, as many as asked or available, and wakes writers; with nothing to read it ends in -1 exactly if killed, else sleeps |
| `Pipe.Pipe.TakeBytes` | pipe.c:113-119 | The copying loop takes the oldest bytes in order and then wakes the writers, as a path of the pipe protocol |
| `Pipe.Pipe.Close` | pipe.c:59-75 | Closing one end wakes the other side, and the pipe is freed exactly when both ends are closed |
| `PageTables.PagesApart` | vm.c:44-64 | No physical page is two of directory, table, frame and free page, no two user pages of any address spaces share a frame, and no two directory entries a table |
| `PageTables.AddTable` | vm.c:55-61 | A new zeroed table changes no entry of any address space |
| `PageTables.WritePte` | vm.c:82 | Writing one table word changes one entry of one address space |
| `PageTables.PopFree` | kalloc.c:82-95 | Following the link of the first free page gives a correct list of the rest |
| `PageTables.PushFree` | kalloc.c:72-74 | Linking a page in front gives a correct list with exactly that page added |
| `VmSteps.SkipTable` | vm.c:272-274 | Jumping over a missing table drops exactly what the page-by-page walk would drop there: nothing |
| `VmSteps.FailureRestores` | vm.c:241-252 | A failed allocuvm restores all mappings if and only if none of the pages it was to add was mapped before |
| `VmSteps.FreeUndoesCopy` | vm.c:289-349 | freevm of a directory made by copyuvm gives back exactly the pages it took |
| `VmSteps.KernelMeans` | vm.c:112-124 | The four regions of kmap in numbers: flags 3 for I/O space, data, memory and devices, 1 for text, and no entry elsewhere |
| `VmBytes.UpAt` | mmu.h:133 | PGROUNDUP counts exactly the pages that start below a size |
| `VmBytes.DropBytes` | vm.c:270-283 | Dropping the frames between two rounded sizes takes the pages that start between the sizes from the process and changes no other byte of any process |
| `VmBytes.GrowBytes` | vm.c:237-253 | New pages between two rounded sizes show zeros at exactly the addresses from the first whole page to the new size |
| `VmBytes.FailBytes` | vm.c:241-252 | After a failed growth none of those pages is mapped and every other byte is as before |
| `VmBytes.CopyBytes` | vm.c:328-344 | A page by page copy is a copy byte by byte below the size, with the same flags |
| `Vm.Machine.constructor` | kalloc.c:30-43 | Before kinit1 the list is empty and no page is handed out |
| `Vm.Machine.FreeRange` | kalloc.c:45-52 | Exactly the pages that lie between the two addresses with all their 4096 bytes go on the list |
| `Vm.Machine.Kfree` | kalloc.c:59-77 | The page joins the list; every other page keeps its contents |
| `Vm.Machine.Kalloc` | kalloc.c:82-95 | Hands out a page that was free, and fails exactly on an empty list |
| `Vm.Machine.WalkPgdir` | vm.c:44-64 | Finds the table of a page or makes one from a free page, without changing any mapping or data; without alloc it changes nothing |
| `Vm.Machine.MapPages` | vm.c:69-89 | Maps the pages in order, round the end of the address space if need be, to consecutive physical pages and nothing else; it panics exactly at the first page mapped before, and runs out only when the list is empty, with the pages before that mapped |
| `Vm.Machine.MapRange` | vm.c:66-89 | For any 32-bit address and size: the pages mapped are exactly those that hold a byte of the range if and only if the range is not empty and does not come round to its first page again; for others it still maps the pages up to the wrapped end address |
| `Vm.PagesOfRange` | vm.c:75-76 | The pages between the two rounded addresses are those of the range exactly under that condition |
| `Vm.Machine.DropPage` | vm.c:275-281 | A mapped user page loses its entry and its frame becomes free, although the page is freed before the entry is cleared |
| `Vm.Machine.DeallocUvm` | vm.c:261-285 | Exactly the pages that start from newsz up to oldsz are unmapped and their frames freed; every other byte that any user process sees stays |
| `Vm.Machine.AddPage` | vm.c:239-252 | A new page with given contents is mapped at one address, or nothing is mapped |
| `Vm.Machine.Release` | vm.c:250 | Giving back a page that was never mapped changes no mapping |
| `Vm.Machine.AllocUvm` | vm.c:227-255 | Refuses exactly sizes from 2^31 on. On success every address from oldsz, rounded up to a page, to newsz, which was not mapped before, holds a zero byte in a present, writable user page on a frame that was free, and no other byte of any process and no other entry changes; when memory runs out the pages are all unmapped and freed again and only page tables stay taken; the remap panic needs a page that was mapped already |
| `Vm.Machine.FreeVm` | vm.c:289-304 | The directory, its tables and its frames become free, and no page of anyone else |
| `Vm.Machine.SetupKvm` | vm.c:112-143 | The new address space maps, in numbers: KERNBASE on to physical 0 up to PHYSTOP, writable except for the kernel text, the devices from 0xFE000000 on at their own addresses, and nothing else; on failure the directory page and the tables made so far are lost, unless the list was empty at the start |
| `Vm.Machine.CopyUvm` | vm.c:321-349 | Every address below sz holds the same byte with the same flags in the child as in the parent, on frames that were free, the child has the kernel half and nothing else, and no byte of the parent or anyone else changes; when memory runs out everything is given back except one page, or except the directory that setupkvm drops; the panics need a hole in the parent |
| `Regex.HereStar` | grep.c:98-106 | A starred item matches a prefix if and only if some number of its characters followed by the rest does |
| `Regex.HereOne` | grep.c:93-94 | A plain item matches a prefix if and only if the first character fits and the rest matches behind it |
| `Regex.MatchHere` | grep.c:84-96 | True exactly when some prefix of the text is in the pattern's language, up to the end of the text if the pattern ends in $ |
| `Regex.MatchStar` | grep.c:98-106 | True exactly when some number of leading characters fit the item and the rest of the pattern matches behind them |
| `Regex.Match` | grep.c:72-82 | True exactly when the pattern matches at the start, for a pattern with ^, or anywhere |
| `Regex.MatchesSubstring` | grep.c:72-82 | Without ^, matching means that some substring is in the language, ending at the end of the text if the pattern ends in $ |
| `ShellSyntax.TokenIs` | sh.c:265-308 | A token, character by character: blanks, then the end of the line, one of the signs, >> as one sign of two characters with kind +, or the longest run of other characters with kind a; then blanks |
| `ShellSyntax.RedirsSigned` | sh.c:374-397 | Every redirection the parser returns stands in the line as < or > or >>, blanks and its file name, and is an output if and only if the sign is > or >> |
| `ShellText.Spellable` | sh.c:327-446 | The language of the shell, written down as spellings: every tree of legal words with fewer than ten arguments to a command has one |
| `ShellReads.ParsesSpelling` | sh.c:327-446 | Parsing inverts every spelling, with any blanks, with > or >>, with redirections anywhere among the words, with any parentheses: it reads all of the line and gives the tree the spelling means |
| `ShellSpells.AcceptedSpelled` | sh.c:327-446 | The converse: every line that is accepted is a spelling of the tree it is parsed to |
| `ShellSpells.AcceptsExactly` | sh.c:327-446 | The parser accepts a line if and only if it is a spelling, and then gives the meaning of every spelling of it |
| `ShellSpells.OneMeaning` | sh.c:327-446 | The language is unambiguous: two spellings of the same line mean the same tree |
| `Shell.Parser.constructor` | sh.c:333-334 | The cursor starts at the beginning of the line |
| `Shell.Parser.SkipBlanks` | sh.c:272-273 | The cursor moves over space, tab, return, newline and vertical tab to the next other character |
| `Shell.Parser.GetToken` | sh.c:265-308 | The loops give the token, its bounds and the cursor, as the characters of the line define them |
| `Shell.Parser.Peek` | sh.c:310-320 | Tells whether the next visible character is one of the set and moves the cursor there |
| `Shell.Parser.ParseRedirs` | sh.c:374-397 | The loop collects the redirections of the grammar, each with the sign it has in the line, or panics where the grammar fails |
| `Shell.Parser.ParseArgs` | sh.c:426-445 | The loop collects the grammar's arguments and redirections, and panics exactly where the grammar fails, the tenth argument included |
| `Shell.Parser.ParseBlock` | sh.c:399-413 | A parenthesised line with its redirections, or a panic where the grammar fails |
| `Shell.Parser.ParseExec` | sh.c:415-446 | The recursive method computes the grammar's simple command or block |
| `Shell.Parser.ParsePipe` | sh.c:361-372 | The recursive method computes the grammar's right-nested pipeline |
| `Shell.Parser.ParseLine` | sh.c:344-359 | The loop over & and the recursion over ; compute the grammar's line |
| `Shell.Nulterminate` | sh.c:449-493 | A NUL is written behind every argument and file name of the command and nowhere else |
| `Shell.CutKeepsTokens` | sh.c:327-493 | For every line that parses, each argument and file name read as a C string from the cut buffer is exactly its token |
| `Shell.RunsWhatIsSpelled` | sh.c:327-493 | Any spelling, parsed and cut in place, is the tree it means when its pointers are followed |
| `Shell.RunsEveryTree` | sh.c:327-493 | Every legal tree can be typed and is then what is run |
| `Shell.ParseCmd` | sh.c:327-342 | parsecmd on the buffer panics exactly if the line is no spelling, leaving the buffer as it was; else the strings behind the pointers of the command are the tree that every spelling of the line means |

## Left out

- Boot, interrupt controllers, UART, keyboard, console, timer and the real IDE driver: hardware plumbing.
- Context switching, trap frames, segments and cr3: a dispatch ends where the source calls swtch.
- The spin lock's exchange loop and memory ordering: acquire and release are atomic steps.
- scheduler1, scheduler2 and scheduler_b: main.c starts only scheduler.
- Directories, path names, links, file descriptors and system calls above the inode layer.
- The inode cache and inode locks (iget, ilock): an inode is identified with its number.
- Device files: readi and writei are modelled for regular files and directories.
- Concurrent calls on the file system: `FileSystem` runs one call at a time, and `FsCrash` takes runs of one operation after another.
- exec, inituvm, loaduvm, copyout, clearpteu: they use the modelled page operations one page at a time.
- The byte contents of the kernel's own pages and the direct map's aliases of user frames.
- runcmd, getcmd and the shell's main loop: they hand the parsed command to system calls.
- grep's line buffering.
- Mkfs.Image.Ialloc: reports a missing inode record, where mkfs does not look and would write past the table.
- LogProtocol.LogReservation: takes the budget of MAXOPBLOCKS new blocks per operation as a hypothesis, because file.c does not guarantee it.
- Stride.ProportionalShare: takes pass as an unbounded integer; the source's 32-bit pass overflows after long runs.
- ProcTable.Processes.Exit: closing files and releasing the working directory are not modelled; the source does that before it takes ptable.lock.
- Pipe.Pipe.Write: describes one stretch under the pipe's lock, from entry or wakeup to the next sleep or return; the copy to user memory cannot fail.
- Shell.Parser.ParseArgs: builds the command once its arguments are known, where the source fills argv of a node that redirections already wrap.
- FileSystem.FileSystem.Readi: does not ask for an open operation, as log_write does; the block it allocates in a hole would panic there when fileread calls it and no operation is open.
- FsCrash.CrashConsistency: takes runs in which the header fits the log; `LogOverrun` says when that is certain.
- FsCrash.RunCalls: promises nothing about crashes behind a call that patches a gap, where the disk is no longer sound.
- KernelLog.Log.Commit: readers come between its rounds, not between the two reads of a round; a wait for a reader's block ends it, as a panic does.
- Malloc.Heap.Malloc: describes at most one answer of sbrk, which is all the code asks for, and promises nothing where the end of a block that was never obtained wraps round exactly onto the address of base.
