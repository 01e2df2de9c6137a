# xv6: log, file system, memory, processes and tools

A model of the xv6 kernel in `xv6-add_FAIRNESS` (the copy with the priority scheduler), with proofs that its parts keep
their promises. The three copies of the kernel in the repository share all files modelled here except `proc.c`; of
`xv6-public-master` only the original `scheduler()` is used, for comparison.

Structures that the source changes in place are classes whose fields the methods reassign: tables are sequences, buffers,
cache entries, processes and pages are indices into them, and linked lists keep their links. What a method leaves behind is
stated against a specification on values, and the properties are proved about that specification.

- **Disk and log.** `Bio` is the buffer cache over a disk of 512-byte blocks, one block write being the atomic step; `Log`
  the write-ahead log on top of it; `CrashAtomicity` the disks that commits and recoveries go through and what a crash
  between any two writes leaves; `Reservation` the log space shared by system calls; `Ide` the interrupt-driven driver
  against the disk in memory.
- **Files.** `Bitmap` and `Ownership` say which block belongs to what; `Files` sees a file as flat bytes; `Fs` has the
  block, inode and file operations of `fs.c` and the chunked write of `file.c`; `FileTable` the reference counts of open
  files; `Dirents` and `DirFile` directory records and their lookup; `Links` and `Sysfile` link counts under create, link
  and unlink on entry lists; `Trees` and `DiskCalls` the same calls on the inodes and bytes of the disk, with the tree it
  holds; `Mkfs` the image that starts it all. `Fs` works on the newest logged contents, which `Bio` and `Log` show to
  be what `bread` returns and what a commit makes durable. `Dinodes` has the bytes of inode and bitmap blocks, and
  `CrashFs` puts calls, log and crashes together: what a recovery leaves is a file system in order.
- **Memory.** `Umalloc` is the user-level allocator over a map of headers; `Frames` and `Vm` the page allocator and the
  two-level page tables.
- **Processes.** `Proc` is the process table and the scheduler, `SleepLock` every interleaving of the sleep lock with
  `sleep` and `wakeup`, `SpinLock` the spin lock, in every interleaving of its loads, stores and exchanges, and the
  nesting of interrupt disabling.
- **Tools.** `Grammar`, `Spelling` and `Shell` are the shell's language and its parser, `Grep` the pattern matcher, `Pipe`
  the ring buffer, `Dijkstra` the benchmark's shortest paths.

A kernel panic is a result of its own (`false`, `None` or a named one): the machine has stopped, and the contracts say on
the state before the call exactly when, or that it is out of reach.

Where the code does not do what one would expect, the exact condition is proved:

- The guard in `log_write` runs before absorption, and `mkfs` writes a log area one block short of the reservation: a call
  that has logged `u` blocks of its budget is never stopped, be the next block new or logged already, exactly when
  `u + LOGSIZE - capacity < MAXOPBLOCKS`. That is up to the ninth block in the layout of `mkfs`, and all ten blocks but not
  one of them once more in a larger log area (`Reservation.NeverStoppedExactly` and the two lemmas after it).
- `mkfs` rounds the root directory up by a whole block when its size is a multiple of the block size already, and leaves a
  hole exactly then, as for thirty names (`Mkfs.Image.RoundRoot`, `Mkfs.ThirtyNamesLeaveAHole`).
- `create` and `link` keep link counts right exactly in a directory that is still linked; one that was unlinked while a
  process is in it is not (`Links.UnlinkedDirectoryMiscounts`).
- `create` of ".." in such a directory panics in `ilock` when its parent was removed as well and freed: a name found never
  is of a free inode otherwise (`Links.FreeNameIsDotDot`, `Links.ParentCanBeFree`, `Sysfile.Inodes.Create`).
- `malloc` gives a block with room for the bytes asked for exactly when rounding them up does not wrap around 32 bits; for
  the last seven sizes it gives a block of none (`Umalloc.Heap.UnitsHoldExactly`).
- A writer that is killed, or has no reader left, leaves readers of a pipe asleep beside bytes exactly when a reader sleeps
  and its bytes do not all fit (`Pipe.RingBuffer.WriteSection`, `Pipe.ReaderLeftAsleep`).
- `setpriority` keeps priorities in range exactly when the number given is, or when the pid is of no process
  (`Proc.SetPriorityKeepsRangeExactly`, `Proc.PriorityOutOfRange`).
- `dirlink` of a name that already names the directory itself waits for the lock its caller holds, because `iput` takes the
  inode's sleep lock: `link` under the name "." never returns, and the raised link count stays (`Sysfile.Inodes.Link`; in
  `DirFile.Dirlink` that is the result `None`).

## Model

| member | source | states |
|---|---|---|
| CrashAtomicity.HeadRoundTrip | xv6-add_FAIRNESS/log.c:85-113 | reading the header block after writing it gives back the count and the block numbers, for every header that fits |
| CrashAtomicity.CommitIsAtomic | xv6-add_FAIRNESS/log.c:177-202 | for a crash after any number `k` of the block writes of a commit, a recovery makes every home block what it was before the group, or, once the header is written, what it is with the whole group; never a mix |
| CrashAtomicity.CommitCompletes | xv6-add_FAIRNESS/log.c:192-202 | a commit that runs to its end leaves the group in place and an empty log |
| CrashAtomicity.RecoveryIsIdempotent | xv6-add_FAIRNESS/log.c:69-122 | a recovery cut short after any of its writes can be started over with the same outcome |
| CrashAtomicity.CommitTailIsRecovery | xv6-add_FAIRNESS/log.c:69-122 | from the header write on, the disks a commit goes through are those of a recovery |
| CrashAtomicity.MarkedRecoversToApplied | xv6-add_FAIRNESS/log.c:101-122 | once the header names the group, a recovery installs all of it, whatever happened before |
| CrashAtomicity.AppliedIsCurrent | xv6-add_FAIRNESS/log.c:177-190 | when the log slots hold the cached contents of the logged blocks and all other blocks are on the disk, installing them makes the whole disk current |
| CrashAtomicity.EveryRunIsAtomic | xv6-add_FAIRNESS/log.c:69-202 | over any sequence of commits, crashes at any block write and crashes of recoveries, the disk after the next completed recovery holds each group wholly or not at all, completed ones included |
| CrashFs.TransactionIsAtomic | xv6-add_FAIRNESS/log.c:177-202 | for calls that lead from one file system to another and a commit of the blocks they logged that crashes after any block write: what recovery leaves is the image of the file system from before, or from after once the header is written |
| CrashFs.EveryRunKeepsFileSystem | xv6-add_FAIRNESS/log.c:69-202 | over any sequence of such transactions, crashes at any block write and crashes of recoveries, the disk after the next recovery is the image of the file system after the last committed transaction; mounted from its bytes it is well owned, its directories are whole, and its tree is in order |
| CrashFs.GroupMakesImage | xv6-add_FAIRNESS/log.c:68-82 | installing the logged blocks makes the image of the new file system out of that of the old one, because every block that differs was logged |
| CrashFs.MountedIsSame | xv6-add_FAIRNESS/fs.c:285-312 | the bytes of an image determine the bitmap, the inodes and the data: the kernel finds that file system and no other |
| CrashFs.CallsMakeTransaction | xv6-add_FAIRNESS/sysfile.c:335-349 | calls that keep disk and tree in order and journal what they change, as those of DiskCalls do, make a transaction together |
| CrashFs.LoggedHasGroup | xv6-add_FAIRNESS/log.c:177-190 | whatever blocks calls log, there are block contents to be committed for them, if each number fits in its field |
| CrashFs.MkfsIsApart | xv6-add_FAIRNESS/mkfs.c:20-25 | in the layout mkfs writes, log (blocks 2 to 31), inode blocks (32 to 57), bitmap (58) and data (59 to 999) do not overlap |
| Dinodes.DinodeRoundTrip | xv6-add_FAIRNESS/fs.h:28-37 | an inode written to its 64 bytes of a block is read back the same, signed shorts included, and the other inodes of the block stay |
| Dinodes.DinodeBytes | xv6-add_FAIRNESS/fs.h:28-37 | the 64 bytes of an inode, field by field: four shorts, the size and thirteen addresses, the least byte first |
| Dinodes.FlagsOfBlock | xv6-add_FAIRNESS/fs.h:48-51 | flag `b % BPB` of the bitmap block made of a map is that of block `b` |
| Log.Log.WriteLog | xv6-add_FAIRNESS/log.c:177-190 | the disks written are, in order, those of the logging phase with the cached contents of the logged blocks; home blocks keep their cached contents |
| Log.Log.WriteHead | xv6-add_FAIRNESS/log.c:101-113 | one block write puts the in-memory header into the header block |
| Log.Log.ReadHead | xv6-add_FAIRNESS/log.c:84-96 | the in-memory header becomes what the header block says |
| CrashAtomicity.HeaderBytes | xv6-add_FAIRNESS/log.c:101-113 | the header block in bytes: the count and then the block numbers, four bytes each, the least first |
| Log.Log.InstallTrans | xv6-add_FAIRNESS/log.c:68-82 | the disks written are, in order, those of installing the logged blocks one by one |
| Log.Log.Commit | xv6-add_FAIRNESS/log.c:192-202 | the disks written are exactly those of the commit of CrashAtomicity, and none when nothing was logged; nobody else may hold a block of the log area or of the group, others may be read |
| Log.Log.RecoverFromLog | xv6-add_FAIRNESS/log.c:115-122 | the disks written are exactly those of the recovery of CrashAtomicity; the log is empty afterwards |
| Log.Log.BeginOp | xv6-add_FAIRNESS/log.c:124-141 | one turn of its loop admits the caller exactly when no commit is under way and the blocks logged and ten for each call, its own included, make thirty at most; the log discipline is kept |
| Log.Log.LogWrite | xv6-add_FAIRNESS/log.c:204-233 | succeeds exactly when the header and the log area have room and a call is outstanding; the block is absorbed if it is in the header, the buffer becomes dirty and its bytes the newest contents of the block; a write within its call's budget is the step of the log state machine and keeps its discipline |
| Log.Log.EndOp | xv6-add_FAIRNESS/log.c:143-163 | takes the End step of the log state machine, and the caller is told to commit exactly when it was the last; the panic is out of reach |
| Log.Log.FinishOp | xv6-add_FAIRNESS/log.c:164-174 | the last call commits what was logged and opens the log again; the disks written are those of the commit |
| Reservation.StepKeepsDiscipline | xv6-add_FAIRNESS/log.c:124-174 | each critical section keeps: no outstanding call during a commit, an empty header when idle, distinct blocks, and header plus unspent budgets within LOGSIZE |
| Reservation.ReachableIsDisciplined | xv6-add_FAIRNESS/log.c:124-233 | that discipline holds in every reachable state |
| Reservation.NewBlockHasRoom | xv6-add_FAIRNESS/log.c:213-233 | a call within its budget always finds fewer than LOGSIZE blocks in the header when it logs a new block |
| Reservation.NewBlocksNeverPanicExactly | xv6-add_FAIRNESS/log.c:218-219 | the "too big a transaction" guard never stops a call within its budget from logging a new block, in any reachable state, exactly when the log area has more than LOGSIZE blocks |
| Reservation.MkfsLayoutCanPanic | xv6-add_FAIRNESS/mkfs.c:25 | with the layout mkfs writes there is a reachable state and a call within its budget that the guard stops |
| Reservation.RewriteCanPanic | xv6-add_FAIRNESS/log.c:218-231 | a reachable state in which a call that keeps to its budget is stopped on logging a block that is in the header already |
| Reservation.StoppedExactlyWhenFull | xv6-add_FAIRNESS/log.c:218-231 | in every reachable state a call within its budget is stopped exactly when the header is full; in a log area larger than LOGSIZE its block is then in the header and all budgets are spent |
| Reservation.NeverStoppedExactly | xv6-add_FAIRNESS/log.c:218-231 | for every layout: a call that has logged up to `used` blocks is never stopped on its next block, new or logged already, exactly when `used + LOGSIZE - capacity < MAXOPBLOCKS` |
| Reservation.MkfsLayoutStopsAtTenth | xv6-add_FAIRNESS/mkfs.c:25 | in the layout mkfs writes that is up to `used == 8` |
| Reservation.LargeLogStopsOnlySpent | xv6-add_FAIRNESS/log.c:218-231 | in a log area larger than LOGSIZE it is every call with budget left |
| Bio.BufferCache.constructor | xv6-add_FAIRNESS/bio.c:38-56 | after binit the list is a permutation of all buffers and the cache agrees with the disk |
| Bio.BufferCache.FindCached | xv6-add_FAIRNESS/bio.c:68-77 | finds a buffer with the block exactly when there is one, the first in list order |
| Bio.BufferCache.FindReusable | xv6-add_FAIRNESS/bio.c:82-91 | finds a buffer nobody uses and that is not dirty exactly when there is one, the last in list order |
| Bio.BufferCache.Get | xv6-add_FAIRNESS/bio.c:61-93 | gives the buffer that has the block, or recycles one that is neither used, waited for nor dirty; the panic exactly when neither exists; no two buffers ever have one block of a real device |
| Bio.BufferCache.Fill | xv6-add_FAIRNESS/bio.c:95-106 | whoever holds the buffer after bread sees the last contents written or logged for the block |
| Bio.BufferCache.Bread | xv6-add_FAIRNESS/bio.c:95-106 | bread of a block gives a buffer with that block and its newest contents, which no one else held; it waits exactly when somebody has the block locked, and panics exactly when no buffer can be had or there is no such block |
| Bio.BufferCache.Write | xv6-add_FAIRNESS/bio.c:108-116 | panics exactly without the lock; otherwise one disk write of the block, after which disk and newest contents agree there |
| Bio.BufferCache.MarkDirty | xv6-add_FAIRNESS/log.c:226-231 | a logged buffer is dirty, so that it is not recycled, and its bytes are the newest contents of its block |
| Bio.BufferCache.Unref | xv6-add_FAIRNESS/bio.c:128-139 | drops one reference; a buffer nobody uses any more moves to the front of the list, which stays a permutation |
| Bio.BufferCache.Brelse | xv6-add_FAIRNESS/bio.c:118-141 | panics exactly without the lock; otherwise gives up the lock and the reference, changes no other buffer, and moves the buffer to the front when it was the last |
| Bio.MoveToFrontKeepsPermutation | xv6-add_FAIRNESS/bio.c:129-137 | moving a buffer to the front keeps the list a permutation of all buffers |
| Bio.FrontThenOthers | xv6-add_FAIRNESS/bio.c:129-137 | the buffer moved is the first, and the others keep their order |
| Bio.LastReleasedIsInFront | xv6-add_FAIRNESS/bio.c:128-139 | over every run of releases a buffer comes before all those last released before it, so that the buffer recycled is the one unused for longest |
| Bio.RecycleKeepsCacheOk | xv6-add_FAIRNESS/bio.c:82-89 | giving an unused clean buffer to a block no buffer has keeps: no block cached twice, dirty buffers are those waiting for a commit, valid untouched buffers hold the newest contents |
| Bio.PublishKeepsCacheOk | xv6-add_FAIRNESS/bio.c:108-116 | so does writing or logging the contents of a held buffer |
| Bitmap.BitAfterSet | xv6-add_FAIRNESS/fs.c:63-95 | setting or clearing bit `b % 8` of byte `b / 8` changes the flag of block `b` and of no other |
| Bitmap.MaskIsShift | xv6-add_FAIRNESS/fs.c:65 | the mask of a bit is one shifted left by its number |
| Bitmap.Allocate | xv6-add_FAIRNESS/fs.c:64-71 | on the bytes of the bitmap: the first clear bit is found and set, and all others keep their value |
| Bitmap.Free | xv6-add_FAIRNESS/fs.c:88-93 | on the bytes of the bitmap: panics exactly on a clear bit, and clears that bit only |
| Ownership.OwnedMeansNamedOnce | xv6-add_FAIRNESS/fs.c:56-95 | on a well-owned disk a bitmap bit is set exactly when the block is metadata or named by a direct slot, indirect pointer or indirect entry, and no two slots name one block |
| Ownership.FillKeepsOwned | xv6-add_FAIRNESS/fs.c:372-397 | putting a free block, zeroed, into an empty slot keeps the disk well owned |
| Ownership.FillKeepsBytes | xv6-add_FAIRNESS/fs.c:372-397 | and changes no byte of any file |
| Ownership.WriteKeepsOwned | xv6-add_FAIRNESS/fs.c:498-504 | rewriting a data block keeps the disk well owned |
| Ownership.ByteAfterWrite | xv6-add_FAIRNESS/fs.c:498-504 | rewriting the block of one slot changes the bytes of that block of that file and no others |
| Ownership.TruncateKeepsOwned | xv6-add_FAIRNESS/fs.c:407-435 | freeing exactly the blocks of one inode and emptying it keeps the disk well owned |
| Ownership.TruncateKeepsOthers | xv6-add_FAIRNESS/fs.c:407-435 | and changes no byte of another file |
| Ownership.FreeNext | xv6-add_FAIRNESS/fs.c:414-427 | in any order of the slots, the block of the next one is still marked in use: "freeing free block" is out of reach |
| Files.WroteIsSplice | xv6-add_FAIRNESS/fs.c:482-511 | replacing the bytes from `off` on is, on the flat contents, exactly a splice |
| Files.WriteTurn | xv6-add_FAIRNESS/fs.c:498-504 | patching the mapped block extends the part written by just those bytes |
| Files.PartSpells | xv6-add_FAIRNESS/fs.c:469-474 | what one turn of the read loop copies is what the flat file holds there |
| Files.BackedKeepsNoHoles | xv6-add_FAIRNESS/fs.c:498-509 | a write that starts inside a hole-free file leaves it hole-free at its new size |
| Files.ChunkFitsInLog | xv6-add_FAIRNESS/file.c:127-138 | a chunk of at most three blocks at any offset, whatever bitmap blocks its new blocks are in, logs at most ten blocks |
| Files.BacksTwice | xv6-add_FAIRNESS/fs.c:494-511 | two stretches of blocks made one after the other, the second starting where the first ended or in its last block, take the free blocks that making them at once would |
| Files.SmallWriteNeeds | xv6-add_FAIRNESS/fs.c:494-511 | a write in one block needs what bmap does for it; a write inside a hole-free file needs no block |
| Fs.FileSystem.Balloc | xv6-add_FAIRNESS/fs.c:56-81 | takes the first free block, marks it and zeroes it; the panic exactly when none is free |
| Fs.FileSystem.Bfree | xv6-add_FAIRNESS/fs.c:83-95 | panics exactly on a free block; otherwise clears its bit only |
| Fs.FileSystem.Iupdate | xv6-add_FAIRNESS/fs.c:216-236 | the disk inode becomes the in-memory one |
| Fs.FileSystem.Bmap | xv6-add_FAIRNESS/fs.c:370-400 | gives the block of the slot, filling it and the indirect pointer if need be: the disk stays well owned, no byte of any file and no slot but those two changes, nothing at all if the block is there; panics exactly out of range or with fewer free blocks than it needs, and takes just those; every block that differs afterwards is logged, and the logged blocks are counted |
| Fs.FileSystem.Itrunc | xv6-add_FAIRNESS/fs.c:402-435 | frees exactly the blocks of the inode, none of its bfree calls panics, the emptied inode is on the disk, and every block that differs is logged |
| Fs.FileSystem.Readi | xv6-add_FAIRNESS/fs.c:449-476 | gives exactly the bytes of the flat file from `off`, cut at the size; -1 exactly past the end or on 32-bit overflow; a hole-free file is read without allocating or changing anything, and another panics exactly when there are fewer free blocks than its holes take |
| Fs.FileSystem.Writei | xv6-add_FAIRNESS/fs.c:478-511 | replaces exactly [off, off+n), size becomes the maximum, every other file is unchanged; a hole-free file stays so, its disk inode is up to date again at the end; it panics exactly when fewer blocks are free than the blocks it meets lack, the indirect one counted, and takes just those; every block that differs is logged, and the logged blocks are bounded |
| Fs.FileSystem.Iget | xv6-add_FAIRNESS/fs.c:238-272 | an inode has one cache entry in use at most; an entry in use is never recycled; the panic exactly when the inode is not cached and all entries are in use |
| Fs.FileSystem.Idup | xv6-add_FAIRNESS/fs.c:274-283 | one more reference to an entry in use keeps the cache in order |
| Fs.FileSystem.Ilock | xv6-add_FAIRNESS/fs.c:285-312 | the locked inode agrees with the disk; the two panics exactly for an unreferenced entry and a free disk inode |
| Fs.FileSystem.Iput | xv6-add_FAIRNESS/fs.c:324-352 | the inode and its blocks are freed exactly when it is valid, has no links and this was its last reference; otherwise the disk does not change; every block that differs is logged, and only bitmap blocks and that of the inode are |
| Fs.FileSystem.Ialloc | xv6-add_FAIRNESS/fs.c:190-214 | takes the first free inode from 1 on, with no blocks to leak, and keeps the disk well owned; panics exactly when none is free or the cache has no room for it |
| Fs.FileSystem.Filewrite | xv6-add_FAIRNESS/file.c:115-157 | lays the accepted bytes over the file, moves the offset past them, reports success only if that is all of them, panics exactly when fewer blocks are free than they need, and no transaction on the way logs more than MAXOPBLOCKS blocks |
| Fs.FileSystem.WriteChunk | xv6-add_FAIRNESS/file.c:140-145 | one chunk is one transaction that logs at most MAXOPBLOCKS blocks and names every block, bitmap and inode blocks included, that differs afterwards: nothing gets past the log |
| Fs.FileSystem.RefusedAfterAccepted | xv6-add_FAIRNESS/file.c:133-152 | the chunk that does not fit is the one after the largest number of whole chunks that do |
| Fs.FileSystem.MapBlocksAre | xv6-add_FAIRNESS/fs.h:48-51 | the bits of `n` blocks are in one bitmap block for every BPB blocks at most |
| FileTable.Files.Filealloc | xv6-add_FAIRNESS/file.c:25-41 | takes the first entry no descriptor refers to; fails exactly when there is none; counts stay exact |
| FileTable.Files.Filedup | xv6-add_FAIRNESS/file.c:43-53 | counts one more descriptor; panics exactly on an entry nobody refers to |
| FileTable.Files.Fileclose | xv6-add_FAIRNESS/file.c:55-80 | counts one less, and hands over the pipe end or inode to close exactly when it was the last |
| Dirents.Strncmp | xv6-add_FAIRNESS/string.c:58-66 | zero exactly when both buffers spell the same string within `n` characters |
| Dirents.Strncpy | xv6-add_FAIRNESS/string.c:68-79 | the string, then zeros; reading it back gives the string |
| Dirents.DirentRoundTrip | xv6-add_FAIRNESS/fs.h:53-56 | decoding an encoded directory record gives back the inode number and the name |
| Dirents.EntriesAfterWrite | xv6-add_FAIRNESS/fs.c:572-575 | writing 16 bytes at a record boundary sets that record of the list and no other, or appends one |
| DirFile.Dirlookup | xv6-add_FAIRNESS/fs.c:522-548 | finds the first live record with the name, and nothing exactly when there is none; the directory is not changed, and it panics exactly when the inode found has no room in the cache |
| DirFile.Dirlink | xv6-add_FAIRNESS/fs.c:550-578 | enters a name that is not there at the first free record or the end, and changes no other file; -1, with the disk unchanged, when the name is there; it stops exactly when that is the directory's own name or has no room in the cache, or when the directory must grow and cannot; every block that differs is logged, five at most |
| DirFile.Isdirempty | xv6-add_FAIRNESS/sysfile.c:167-181 | true exactly when no record after the first two is live |
| Links.CreateIsRightExactly | xv6-add_FAIRNESS/sysfile.c:241-283 | after create every link count is the number of entries naming the inode in linked directories (and the tree is in order) exactly when the directory it worked in was linked |
| Links.LinkIsRightExactly | xv6-add_FAIRNESS/sysfile.c:117-165 | the same for link |
| Links.UnlinkedDirectoryMiscounts | xv6-add_FAIRNESS/sysfile.c:117-283 | a directory unlinked while a process is in it: create and link are let through there, and both leave wrong link counts |
| Links.FreeNameIsDotDot | xv6-add_FAIRNESS/sysfile.c:241-283 | in a tree in order, a name found for a free inode is ".." in an unlinked directory |
| Links.ParentCanBeFree | xv6-add_FAIRNESS/sysfile.c:184-239 | there is such a tree: a directory unlinked inside another that is unlinked in turn and freed |
| Links.UnlinkKeepsTree | xv6-add_FAIRNESS/sysfile.c:184-239 | unlink keeps every count right, names unique, and each linked directory named once in its parent |
| Links.UnlinkedDirIsAlone | xv6-add_FAIRNESS/sysfile.c:211-229 | an empty directory that is unlinked has exactly one link, so its count goes to 0 together with its ".." |
| Links.FreeKeepsTree | xv6-add_FAIRNESS/fs.c:331-352 | freeing an inode whose count is 0 keeps the tree in order, and no entry of a linked directory named it |
| Sysfile.Inodes.Create | xv6-add_FAIRNESS/sysfile.c:241-283 | on the entry lists: an existing file is returned, another existing name refused, and a new inode is counted, linked and entered, with its dots if it is a directory; it panics exactly when the name is there for a free inode, or is not there and no inode is free |
| Sysfile.Inodes.Link | xv6-add_FAIRNESS/sysfile.c:117-165 | counts the link, enters the name, and takes the count back when the name is there; directories are refused; it never returns, with the count still raised, exactly when the name found is of the directory itself |
| Sysfile.OwnNames | xv6-add_FAIRNESS/fs.c:550-578 | the names of a directory that are of itself: "." in every one, ".." in the root |
| Sysfile.Inodes.Unlink | xv6-add_FAIRNESS/sysfile.c:184-239 | removes the entry and the counts, refuses dots, missing names and directories that are not empty, and never panics |
| Sysfile.Inodes.Iput | xv6-add_FAIRNESS/fs.c:331-352 | an inode is freed exactly at count 0 with the last reference; then no linked directory names it |
| DiskCalls.Create | xv6-add_FAIRNESS/sysfile.c:241-283 | on the disk, through the inode cache and the bytes of the directories: the tree the disk holds becomes that of the specification of create, an existing file is returned, and other names that are there are refused with the disk unchanged; a new inode has the type and device numbers asked for and one link, and no bytes unless it is a directory; every other file keeps its bytes and its inode, and directories change as the tree says; it panics exactly when the name is there for an inode that is free or has no room in the cache, or is not there and there is no inode, no cache entry, no block for the dots, or no room to grow the directory: never because a name is taken; at most MAXOPBLOCKS blocks are logged, every block that differs among them |
| DiskCalls.Link | xv6-add_FAIRNESS/sysfile.c:117-165 | the same for link, which on a name that is there takes its count back and leaves the disk as it was; every file that is no directory keeps its bytes and all of its inode but the link count; it stops exactly when dirlink does; every block that differs is logged, six at most |
| DiskCalls.Unlink | xv6-add_FAIRNESS/sysfile.c:184-239 | the same for unlink; refusals leave the disk unchanged, its writei cannot fail, every file that is no directory keeps its bytes and all of its inode but the link count; it panics exactly when the inode found has no room in the cache; every block that differs is logged, six at most |
| DiskCalls.Iput | xv6-add_FAIRNESS/fs.c:331-352 | frees the inode on the disk exactly when it is valid, without links and the cache holds its last reference; nothing of another inode changes; the tree stays in order and no linked directory named it; every block that differs is logged, and only bitmap blocks and that of the inode are |
| DiskCalls.PutFits | xv6-add_FAIRNESS/sysfile.c:184-239 | a call that logs six blocks and then frees an inode keeps to MAXOPBLOCKS if the bitmap has three blocks at most |
| DiskCalls.MountImage | xv6-add_FAIRNESS/mkfs.c:117-165 | the image mkfs makes of good names whose root is not rounded into a hole starts with a sound disk and a tree in order; there is one exactly when the files fit in |
| Trees.EntrySet | xv6-add_FAIRNESS/fs.c:572-575 | writing one record of a directory changes that entry of the tree on the disk and nothing else |
| Mkfs.Image.Ialloc | xv6-add_FAIRNESS/mkfs.c:223-235 | takes the next inode, with one link and no blocks, and keeps the image well owned |
| Mkfs.Image.Iappend | xv6-add_FAIRNESS/mkfs.c:255-297 | appends the bytes to the flat contents of the file, leaves every other file alone, gives the file exactly the blocks its size asks for and keeps the image well owned; stops exactly when the file would be too large or those blocks are not there |
| Mkfs.Image.Balloc | xv6-add_FAIRNESS/mkfs.c:237-251 | the bitmap written is the one of the blocks handed out, so the image is well owned |
| Mkfs.Image.RoundRoot | xv6-add_FAIRNESS/mkfs.c:158-163 | rounding the size of the root directory up leaves it hole-free exactly when it was no multiple of the block size |
| Mkfs.Image.Build | xv6-add_FAIRNESS/mkfs.c:117-165 | the finished image is well owned, every file holds its data, and the root holds the dots, one record a file and free records up to its rounded size; all other inodes are free; the tree it holds is in order if the names are good; it stops exactly when there are too few inodes, a file is too large, or files and root together take more blocks than there are |
| Mkfs.MkfsTreeIsOk | xv6-add_FAIRNESS/mkfs.c:117-156 | a root with one entry a name and a link to each is a tree with right link counts and unique names, if the names are distinct and no dots |
| Mkfs.BuiltTree | xv6-add_FAIRNESS/mkfs.c:117-165 | the tree on an image built so, decoded from its inodes and the bytes of its root, is that one with free records at the end of the root |
| Mkfs.ThirtyNamesLeaveAHole | xv6-add_FAIRNESS/mkfs.c:158-163 | thirty good names fill a block with the root directory, so that it is rounded up by a whole one |
| Umalloc.FreeIntoIsSorted | xv6-add_FAIRNESS/umalloc.c:24-44 | putting a block into its gap and joining it on both sides keeps the list in address order with no two adjoining blocks |
| Umalloc.FreeIntoKeepsUnits | xv6-add_FAIRNESS/umalloc.c:24-44 | and loses no unit |
| Umalloc.FreeWritesCycle | xv6-add_FAIRNESS/umalloc.c:24-44 | the pointer and size assignments of free make the headers the cycle of that list |
| Umalloc.StopsAtGapOnly | xv6-add_FAIRNESS/umalloc.c:30-32 | the loop condition of free stops at the one gap where the block belongs, the wrap included |
| Umalloc.TakeFromKeepsUnits | xv6-add_FAIRNESS/umalloc.c:74-83 | unlinking a block or cutting its tail off loses no unit |
| Umalloc.Heap.Free | xv6-add_FAIRNESS/umalloc.c:24-44 | the list stays one address-ordered, coalesced cycle apart from every live block; other live blocks keep their bytes; free and live units still sum to what sbrk gave |
| Umalloc.Heap.Morecore | xv6-add_FAIRNESS/umalloc.c:46-61 | adds at least 4096 units to the free list, or nothing when sbrk refuses |
| Umalloc.Heap.Malloc | xv6-add_FAIRNESS/umalloc.c:63-90 | gives a block apart from all live ones, or nothing exactly when no free block is large enough and sbrk refuses; the block has the least number of units that hold the bytes, is the first that fits after the place of the last search, and sbrk is asked, once and for at least 4096 units, exactly when no free block has so many; it has room for `nbytes` bytes exactly when rounding up does not wrap around; its loop ends |
| Umalloc.Heap.UnitsHoldExactly | xv6-add_FAIRNESS/umalloc.c:70 | for which of all 32-bit sizes the unit count holds the bytes; it is then the least that does |
| Umalloc.Heap.Store | xv6-add_FAIRNESS/umalloc.c:63-90 | a program may write anything into a block it was given, beside the header: the heap stays in order |
| Umalloc.Heap.Search | xv6-add_FAIRNESS/umalloc.c:72-89 | the loop of malloc ends after at most one trip round the list on each side of one morecore |
| Frames.EachPageOnce | xv6-add_FAIRNESS/kalloc.c:79-95 | every managed page is on the free list or in one use, and is mapped at one user address or as one table at most |
| Frames.LinkTable | xv6-add_FAIRNESS/vm.c:44-53 | linking an empty table, present, writable and for the user, changes no mapping and keeps pages in order |
| Frames.UnmapKeepsInv | xv6-add_FAIRNESS/vm.c:269-276 | freeing a mapped user page and clearing its entry unmaps that address only |
| Vm.Memory.Kfree | xv6-add_FAIRNESS/kalloc.c:59-77 | fills the page with ones, one a byte, and puts it at the head of the free list, which stays one unless the page is in it already; panics exactly outside the managed pages |
| Vm.Memory.Kalloc | xv6-add_FAIRNESS/kalloc.c:82-95 | pops the head of the free list; fails exactly when it is empty |
| Vm.Memory.Freerange | xv6-add_FAIRNESS/kalloc.c:46-53 | gives exactly the whole pages of a range held by the kernel to the allocator; every page keeps exactly one role |
| Vm.Memory.Kinit | xv6-add_FAIRNESS/kalloc.c:31-44 | after kinit1 and kinit2 every managed page is on the free list and the memory is in order |
| Vm.Memory.Walkpgdir | xv6-add_FAIRNESS/vm.c:35-55 | finds the table, or makes an empty one if asked; no mapping changes; fails exactly without a table or without memory for it |
| Vm.Memory.Mappages | xv6-add_FAIRNESS/vm.c:57-80 | maps consecutive pages at consecutive addresses and changes no other mapping; panics exactly when it gets to an address mapped before; fails, with a prefix mapped, exactly when there are fewer free pages than the tables lacking up to there |
| Vm.Memory.Setupkvm | xv6-add_FAIRNESS/vm.c:105-136 | the new directory maps exactly the pages of the kernel table, with these flags in numbers: never the user bit, read-only exactly from page 0x80100 up to the data, present and writable elsewhere; page `v` is on frame `v - 0x80000` below the devices and `v` for them; it fails, with everything as before, exactly with fewer than 65 free pages: one for the directory and 64 for its tables |
| Vm.Memory.KernelPages | xv6-add_FAIRNESS/vm.c:105-116 | the four rows of the kernel table, laid out one page at a time, are those pages, frames and flags and no others |
| Vm.Memory.Allocuvm | xv6-add_FAIRNESS/vm.c:219-249 | maps fresh zeroed user pages at every new address, with exactly the pages and tables it takes; panics exactly when it gets to a page mapped before; fails exactly when memory does not last for the pages up to there and the tables they lack, and then nothing of the range is mapped and only tables stay taken |
| Vm.Memory.Deallocuvm | xv6-add_FAIRNESS/vm.c:251-279 | unmaps and frees exactly the user pages of the range, with its jumps over missing tables |
| Vm.Memory.Freevm | xv6-add_FAIRNESS/vm.c:281-298 | gives back every page of the directory and nothing else: no leak, no double free |
| Vm.Memory.Copyuvm | xv6-add_FAIRNESS/vm.c:313-345 | equal contents and flags on fresh pages for every address below `sz`, the source and all other memory kept; panics exactly when it gets to a page that is not mapped; fails, with everything as before, exactly with fewer free pages than the kernel part, the pages up to there and their tables take |
| Proc.ProcTable.constructor | xv6-add_FAIRNESS/proc.c:119-155 | userinit establishes the invariant: distinct pids, one CPU a running process, parents that are alive, no parent asleep beside a zombie child |
| Proc.ProcTable.AllocProc | xv6-add_FAIRNESS/proc.c:73-91 | the first unused slot becomes an embryo with a new pid |
| Proc.ProcTable.SetParent | xv6-add_FAIRNESS/proc.c:200 | a process that is being made gets its parent |
| Proc.ProcTable.AbandonFork | xv6-add_FAIRNESS/proc.c:193-198 | a fork without memory gives the slot back |
| Proc.ProcTable.FinishFork | xv6-add_FAIRNESS/proc.c:214-222 | the new process may run, with its parent set |
| Proc.ProcTable.Exit | xv6-add_FAIRNESS/proc.c:228-269 | the parent is woken, children go to init, which is woken if one of them is a zombie, and the caller becomes a zombie, slot by slot on the table before the call; panics exactly for init |
| Proc.ProcTable.Wait | xv6-add_FAIRNESS/proc.c:273-313 | reaps the first zombie child, each once; otherwise there are no children, or the caller sleeps until one exits |
| Proc.ProcTable.Sleep | xv6-add_FAIRNESS/proc.c:450-485 | the caller sleeps on the channel and gives up its CPU; it is on it until it runs again |
| Proc.ProcTable.Resume | xv6-add_FAIRNESS/proc.c:477-478 | when it runs again it is on no channel any more |
| Proc.ProcTable.Wakeup | xv6-add_FAIRNESS/proc.c:487-507 | every process asleep on the channel becomes runnable and is otherwise the same; every other slot is unchanged |
| Proc.SleepersAreWoken | xv6-add_FAIRNESS/proc.c:487-507 | after any wakeups, one after the other, exactly the processes that were asleep on one of the channels are runnable, and nothing else has changed |
| Proc.ProcTable.Kill | xv6-add_FAIRNESS/proc.c:509-530 | marks the first process with the pid, and wakes it if it sleeps |
| Proc.ProcTable.Dispatch | xv6-add_FAIRNESS/proc.c:354-385 | the runnable process with the least pair of priority and slot runs on this CPU alone |
| Proc.ProcTable.Yield | xv6-add_FAIRNESS/proc.c:413-425 | the caller is runnable again, one step better in priority but not below 0 |
| Proc.ProcTable.Age | xv6-add_FAIRNESS/proc.c:346-354 | every runnable process gets one step better, and priorities stay in 0..10 |
| Proc.AgingReachesTheFront | xv6-add_FAIRNESS/proc.c:346-354 | after `n` rounds the priority number of a process that stays runnable is less by `n`, or 0; ten rounds bring any process to 0 |
| Proc.ProcTable.SetPriority | xv6-add_FAIRNESS/proc.c:324-338 | sets the first slot with the pid, found exactly when there is one; priorities stay in range exactly when the number given is, or when that slot is unused or there is none |
| Proc.SetPriorityKeepsRangeExactly | xv6-add_FAIRNESS/proc.c:324-338 | that condition, for every table, on the table before the call |
| Proc.PriorityOutOfRange | xv6-add_FAIRNESS/proc.c:324-338 | a table and a call with priority 11 that leave the range |
| Proc.YieldsNeverChangeThePick | xv6-add_FAIRNESS/proc.c:354-425 | on one CPU, however often the picked process yields, it is picked again |
| Proc.RoundRobin | xv6-public-master/proc.c:322-356 | in the original scheduler a process that stays runnable waits for at most NPROC-1 dispatches, of distinct other slots: exactly those runnable when the scan gets to them |
| SleepLock.StepKeepsInv | xv6-add_FAIRNESS/sleeplock.c:22-42 | every step of every process, at the grain of spin-lock operations, keeps the invariant of the sleep lock |
| SleepLock.MutualExclusion | xv6-add_FAIRNESS/sleeplock.c:22-42 | at most one process holds the sleep lock, in every interleaving |
| SleepLock.NoLostWakeup | xv6-add_FAIRNESS/proc.c:450-507 | in every interleaving, when the sleep lock is unlocked and its inner lock free, no process is asleep on it or about to sleep |
| SleepLock.HoldingSleepIsExact | xv6-add_FAIRNESS/sleeplock.c:44-53 | holdingsleep says yes to the holder and to nobody else |
| SleepLock.NoDeadlock | xv6-add_FAIRNESS/sleeplock.c:22-42 | in every reachable state some process can take a step |
| SpinLock.Lock.Attempt | xv6-add_FAIRNESS/spinlock.c:24-43 | run alone, the exchange takes the lock exactly when it was free; panics exactly when the caller holds it |
| SpinLock.Lock.Release | xv6-add_FAIRNESS/spinlock.c:46-68 | run alone, panics exactly when the caller does not hold the lock; otherwise it is free |
| SpinLock.MutualExclusion | xv6-add_FAIRNESS/spinlock.c:24-68 | at most one CPU has the lock, in every interleaving of single loads, stores and exchanges |
| SpinLock.PanicsExactly | xv6-add_FAIRNESS/spinlock.c:24-68 | whatever other CPUs do between the two loads of the test, acquire panics exactly for the CPU that has the lock and release exactly for one that has not |
| SpinLock.ExchangeTakesFreeLock | xv6-add_FAIRNESS/spinlock.c:31-33 | the exchange succeeds exactly when no CPU has the lock |
| SpinLock.Cpu.Pushcli | xv6-add_FAIRNESS/spinlock.c:104-114 | interrupts are off after it, and the flag from before the outermost one is remembered |
| SpinLock.Cpu.Popcli | xv6-add_FAIRNESS/spinlock.c:116-125 | panics exactly with interrupts on or nothing to pop; the outermost one restores the flag |
| SpinLock.NestingRestoresInterrupts | xv6-add_FAIRNESS/spinlock.c:99-125 | any properly nested pushcli and popcli run without a panic and leave the interrupt flag as they found it |
| SpinLock.InterruptsOffInside | xv6-add_FAIRNESS/spinlock.c:99-125 | in between, interrupts are off |
| Ide.RunRefines | xv6-add_FAIRNESS/ide.c:102-168 | for every interleaving of calls, interrupts and changes by holders, the memory disk run on the same calls in the same order, which it never refuses, differs from the driver by the queued requests only |
| Ide.StepKeepsOk | xv6-add_FAIRNESS/ide.c:102-168 | the queue holds distinct buffers with something to do, and the controller works on its head |
| Ide.WaitEndsWhenServed | xv6-add_FAIRNESS/ide.c:161-164 | the wait of iderw ends when the interrupt for its buffer served it, and not before |
| Ide.ServedIsMemRw | xv6-add_FAIRNESS/memide.c:38-60 | an interrupt leaves flags, data and disk as the memory disk would |
| Ide.ReadGivesLastWritten | xv6-add_FAIRNESS/memide.c:38-60 | on the memory disk, over every run, a block that was written and then read gives the data back |
| Ide.DriverReadGivesLastWritten | xv6-add_FAIRNESS/ide.c:102-168 | for every interleaving: a buffer read by iderw has, once served, the data of the last call before that wrote its block, served or not when the read was asked for; the buffer written keeps its own |
| Ide.IdeDriver.Iderw | xv6-add_FAIRNESS/ide.c:137-159 | the buffer goes to the end of the linked queue and an idle controller is started; panics exactly with nothing to do |
| Ide.IdeDriver.Ideintr | xv6-add_FAIRNESS/ide.c:102-131 | the head of the queue is served and the next request started |
| Grammar.ParsesExactly | xv6-add_FAIRNESS/sh.c:327-446 | the parser gives a tree exactly when the tokens of the text are a line of the language that stands for it, and panics exactly when there is none; the language is given by its tokens, with redirections anywhere among the words, each of `<`, `>` and `>>` with its meaning, and no search |
| Spelling.LexSpelled | xv6-add_FAIRNESS/sh.c:265-308 | tokens written with white space of any kind and length between them, or none where they do not run together, are the tokens read |
| Spelling.ReadsAnySpelling | xv6-add_FAIRNESS/sh.c:327-446 | so a line is read as its tree in every spelling: `>` or `>>`, redirections before, between and after the words, any white space |
| Spelling.ParseUndoesPrint | xv6-add_FAIRNESS/sh.c:327-446 | parsing the printed form of any command tree of words with fewer than MAXARGS arguments gives the tree back |
| Spelling.ReadsBackExactly | xv6-add_FAIRNESS/sh.c:429-442 | words alone, however spaced, are read back as one command exactly when there are fewer than 10 of them, and panic otherwise |
| Shell.Gettoken | xv6-add_FAIRNESS/sh.c:265-308 | the token and what is left of the input are those of the grammar; a word is a stretch of word characters as long as it can be |
| Shell.PeekAt | xv6-add_FAIRNESS/sh.c:310-320 | skips white space, and says whether the next character is one of those asked for |
| Shell.Parseline | xv6-add_FAIRNESS/sh.c:344-359 | accepts what the grammar does, with its tree and its remaining input; terminates because the remaining input shrinks |
| Shell.Parsepipe | xv6-add_FAIRNESS/sh.c:361-372 | the same for pipelines |
| Shell.Parseexec | xv6-add_FAIRNESS/sh.c:415-446 | the same for simple commands and blocks |
| Shell.Parseblock | xv6-add_FAIRNESS/sh.c:399-413 | the same for parenthesised lines |
| Shell.Parseredirs | xv6-add_FAIRNESS/sh.c:374-397 | the same for redirections |
| Shell.Nulterminate | xv6-add_FAIRNESS/sh.c:448-493 | writes a NUL just after every stored word, and changes nothing else |
| Shell.WordsReadBack | xv6-add_FAIRNESS/sh.c:448-493 | after it every stored word reads as exactly its token: no NUL fell inside another word |
| Shell.Parsecmd | xv6-add_FAIRNESS/sh.c:327-342 | the whole input is one line of the grammar or the shell panics; every stored word is a string of its own |
| Dijkstra.MinDistance | xv6-add_FAIRNESS/user/cpu_bound.c:33-43 | the last of the nearest unvisited vertices; -1 exactly when none is within INF |
| Dijkstra.Solve | xv6-add_FAIRNESS/user/cpu_bound.c:45-64 | every entry is the least weight of a path if that is below INF, and INF otherwise, though one vertex is never visited |
| Dijkstra.InfMeansUnreachable | xv6-add_FAIRNESS/user/cpu_bound.c:45-64 | when simple paths weigh less than INF, an entry is INF exactly at unreachable vertices |
| Dijkstra.BenchmarkInfMeansUnreachable | xv6-add_FAIRNESS/user/cpu_bound.c:7-31 | so it is for the graphs the benchmark builds |
| Pipe.RingBuffer.WriteSection | xv6-add_FAIRNESS/pipe.c:78-98 | a stretch of pipewrite between sleeps puts bytes in order and completes exactly when they fit in the ring; a reader sleeps beside bytes afterwards exactly when one slept before, the writer was killed or had no reader, and the bytes did not all fit |
| Pipe.ReaderLeftAsleep | xv6-add_FAIRNESS/pipe.c:86-89 | a run that ends so: an empty open pipe, a sleeping reader, and a killed writer of 513 bytes |
| Pipe.RingBuffer.ReadSection | xv6-add_FAIRNESS/pipe.c:100-121 | takes the oldest bytes in order; returns 0 for n > 0 only on an empty pipe whose write end is closed |
| Pipe.RingBuffer.Close | xv6-add_FAIRNESS/pipe.c:59-75 | the page is given up exactly when both ends are closed, and the other end is woken |
| Pipe.Interleave | xv6-add_FAIRNESS/pipe.c:78-121 | over every interleaving of readers and writers, what was read is a prefix of what was written, at most PIPESIZE behind; unless a writer is killed or the read end closed, no reader sleeps beside bytes |
| Pipe.WrapKeepsRingIndex | xv6-add_FAIRNESS/pipe.c:91-115 | the 32-bit counters may wrap: PIPESIZE divides 2^32 |
| Grep.Match | xv6-add_FAIRNESS/grep.c:72-82 | true exactly when the declarative meaning of the pattern holds for some position of the text |
| Grep.MatchHere | xv6-add_FAIRNESS/grep.c:84-96 | true exactly when the text starts with a match of the pattern; terminates |
| Grep.MatchStar | xv6-add_FAIRNESS/grep.c:98-106 | true exactly when some number of repetitions followed by the rest matches |
| Grep.PlainPatternIsSubstring | xv6-add_FAIRNESS/grep.c:72-106 | a pattern without operators matches exactly the texts that contain it |
| Grep.DotIsAnyCharacter | xv6-add_FAIRNESS/grep.c:84-96 | a pattern of characters and dots matches exactly the texts with a stretch of its length that agrees with it but for the dots |
| Grep.AnchoredPatternIsEquality | xv6-add_FAIRNESS/grep.c:72-106 | between ^ and $ a plain word matches only itself |
| Grep.DotStarIsAnything | xv6-add_FAIRNESS/grep.c:84-106 | a starred dot between two anchored words matches exactly the texts with that beginning and that end, not overlapping |
| Grep.DollarStarAndLeadingStar | xv6-add_FAIRNESS/grep.c:84-96 | `$*` is a starred dollar sign and a leading `*` is a character |

## Left out

- Hardware, boot code, traps, consoles, port I/O and `swtch`; interrupts appear only where a proof is about them.
- Pointers and user memory: buffers, inodes, processes and pages are indices into their tables, and bytes copied to or from
  a user address are sequences, so aliasing between the two is not expressed.
- In `Fs` an inode is a record and the bitmap one flag a block; their bytes are those of `Dinodes` and `Bitmap`, and
  `CrashFs` relates the two. Fields of an inode are unbounded there: a file system with a number that does not fit in its
  field has no image.
- The nodes the shell's parser allocates are values; that `parseexec` stores arguments into a node others already point to
  is the function `AddArgv`.
- `readsb`, `iinit`, `stati`, path walking (`namex`, `skipelem`), `sys_open`, `exec.c` and fetching of system-call arguments.
- Concurrency of file-system calls with each other: each is one step, justified by the sleep locks and the log.
- Disk errors: every request completes without one.
- Fairness under several CPUs and starvation in the priority scheduler, which does not exclude it.
- The measurement programs and `initialize_random_graph`, whose graphs enter `Dijkstra` by their bounds only.
- Fs.FileSystem.Readi: inodes of type T_DEV go to a device driver and are excluded, because the driver is not modelled.
- Fs.FileSystem.Writei: the same.
- Fs.FileSystem.Filewrite: pipes and devices go elsewhere; the file is hole-free, which writei keeps and only the rounding
  of the root directory by mkfs can break.
- Fs.FileSystem.WriteChunk: the same.
- DirFile.Dirlookup: the directory is hole-free and holds whole records, which every operation but the rounding in mkfs
  keeps; after the rounding it is so exactly under the condition of Mkfs.Image.RoundRoot.
- DirFile.Dirlink: the same.
- DirFile.Isdirempty: the same.
- Sysfile.Inodes.Create: the panics of the calls below it, for want of blocks or cache entries, are those of
  DiskCalls.Create and not repeated on the lists.
- Sysfile.Inodes.Unlink: the same, in DiskCalls.Unlink.
- Sysfile.Inodes.Iput: whether the reference is the last one is a parameter here; DiskCalls.Iput reads it from the cache.
- DiskCalls.Create: ends before the directory's iput, and so do the other calls; what that does is DiskCalls.Iput.
- Log.Log.Commit: other processes take no step between its block writes; readers that hold other blocks may be there.
- Log.Log.WriteLog: the same.
- Log.Log.WriteHead: the same.
- Log.Log.InstallTrans: the same.
- SpinLock.Lock.Attempt: runs alone; interleavings are those of SpinLock.Machine, with sequentially consistent memory.
- SpinLock.Lock.Release: the same.
- Mkfs.Image.Build: running out of inodes or blocks, where the source writes past its areas, is a stop; the files arrive as
  byte sequences instead of from the host.
- Umalloc.Heap.Malloc: sbrk takes a signed number of bytes; that a request of 2 GB or more makes it negative, and the
  process smaller, is not modelled.
- Proc.ProcTable.AllocProc: pids are unbounded; wrap-around of the counter is not modelled.
- Vm.Memory.Deallocuvm: the old size lies in user space, as that of every process does.
- Vm.Memory.Mappages: addresses and sizes do not wrap past 4 GB, and pages of memory are passed by number.
- Links.CreateIsRightExactly: link counts are unbounded integers; overflow of a short is not modelled.
- Ide.RunRefines: the check for a second disk and the block range check are conditions on the buffers instead of panics.
- `uva2ka`, `copyout`, `loaduvm`, `inituvm` and `clearpteu`, which only use the tables as they are.
- `grep`'s line buffer, which drops over-long lines by design.
- `fileread` and `filestat`, thin layers over `readi` and the inode.
