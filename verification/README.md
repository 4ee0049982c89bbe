# Weenix

A Dafny model of parts of the Weenix teaching kernel, its file system tool and one of its user
programs, with proofs about them. Each part follows the code: objects whose fields the code
updates are classes, loops are loops with invariants, and each such method is proved against a
function or relation on values about which the main results are then stated.

| part | files | source |
|---|---|---|
| 64-bit division | `Digits`, `Division` | `kernel/util/math.c` |
| page allocator | `Buddy`, `BuddyLists`, `BuddySteps`, `BuddyInit`, `PageMaps`, `PageAlloc` | `kernel/mm/page.c` |
| slab allocator, `kmalloc` | `SlabGeometry`, `SlabAlloc`, `Kmalloc` | `kernel/mm/slab.c` |
| page tables | `PageTable` | `kernel/mm/pagetable.c` |
| shadow objects | `ShadowState`, `ShadowSteps`, `Shadow` | `kernel/vm/shadowd.c`, `kernel/mm/pframe.c` |
| scheduler and mutexes | `SchedState`, `SchedSteps`, `Sched`, `SchedRuns` | `kernel/proc/sched.c`, `kernel/proc/kmutex.c` |
| initialization order | `InitGraph`, `InitSearch`, `Init` | `kernel/util/init.c` |
| S5 disks | `S5Words`, `S5Free`, `S5Files`, `S5Bytes`, `S5Trunc`, `S5Disk`, `S5Format`, `S5Kernel` | `tools/fsmaker/api.py`, `kernel/fs/s5fs/s5fs_subr.c` |
| memory file system | `RamfsState`, `RamfsSteps`, `Ramfs` | `kernel/fs/ramfs/ramfs.c`, `kernel/fs/vnode.c` |
| terminals | `TermLog`, `TermView`, `TermText`, `Term` | `kernel/drivers/tty/virtterm.c` |
| program arguments | `ElfImage`, `Elf` | `kernel/api/elf32.c` |
| formatted output | `PrintfSpec`, `PrintfFormat`, `PrintfParse`, `PrintfLaws`, `Printf` | `kernel/util/printf.c` |
| regular expressions of `ed` | `EdPattern`, `EdCode`, `EdSyntax`, `EdCompile`, `Ed`, `EdSearch` | `user/bin/ed.c` |

`Common`, `Arith`, `Lists` and `Words` hold what several parts share. `dafny verify
dfyconfig.toml` checks the whole project.

Some properties that the code is meant to have do not hold of it. For each of them the model keeps
the code as it is, states for all inputs exactly when the property holds, and gives an input at
which it fails:

- A group of pages whose size is not a multiple of the largest block starts with bit maps that
  do not describe it (`PageAlloc.PageGroup.constructor`, `BuddyInit.JoinsWithNothing`), and its
  maps may lack bits (`PageMaps.MapsCover`, `PageMaps.MapTooShort`).
- `page_alloc_n` hands out one page for counts of 2^31 and more (`PageAlloc.OrderIsEnough`).
- `kmalloc` hands out 60 bytes for the four largest sizes (`Kmalloc.HoldsSize`).
- A slab allocator for objects of about 2^31 bytes and more is made without a panic, and one size
  divides by zero (`SlabGeometry.ChooseOrder`, `SlabAlloc.Create`, `SlabGeometry.HugeIsNotRefused`).
- The first time that a thread of process 0 is made runnable, the threads on the run queue are lost
  (`SchedSteps.NextInv`, `SchedRuns.ThreadIsLost`, `SchedRuns.ThreadCanBeLost`).
- A character may be drawn that the buffer does not show (`Term.VirtTerm.ProvideChar`,
  `Term.ScreenFallsBehind`).
- `pt_unmap_range` inside one table clears the whole table
  (`PageTable.UnmapIsExactUnlessInsideOne`, `PageTable.UnmapsNeighbour`).
- `_init_call` takes two paths to one function for a cycle (`Init.Initializer.CallAll`,
  `InitGraph.DiamondIsRefused`).
- Truncation on an S5 disk may keep or lose blocks (`S5Disk.Simdisk.FreeInode`,
  `S5Trunc.NothingLost`, `S5Trunc.HoleKeepsIndirect`, `S5Trunc.BlockBehindIsLost`).
- A new S5 disk has its last block of inodes on the free list (`S5Format.Format`,
  `S5Format.LastInodeBlockIsFree`).
- `simple_strtoull` does not read the prefix `0X` that `%#X` writes
  (`PrintfSpec.PrefixReadsBack`, `PrintfSpec.LargePrefixIsNotRead`).

## Model

| member | source | states |
|---|---|---|
| Division.Qdivrem | Weenix/weenix/kernel/util/math.c:143-337 | For every two unsigned 64-bit numbers the digit arrays, normalisation, guessed digits, add-back and wrapping 32-bit steps yield the Euclidean quotient and remainder; a zero divisor traps |
| Division.Divdi3 | Weenix/weenix/kernel/util/math.c:344-361 | Signed division of every two 64-bit numbers truncates toward zero, with the one overflow wrapping around |
| Division.Shl | Weenix/weenix/kernel/util/math.c:126-133 | Shifting a digit array left in place multiplies its value by a power of two, less the bits that fall out at the top |
| Division.DivideDigits | Weenix/weenix/kernel/util/math.c:258-322 | The main loop keeps dividend = quotient so far times divisor plus rest, and ends with as many digits of rest as the divisor has |
| PageAlloc.PageGroup.constructor | Weenix/weenix/kernel/mm/page.c:36-90 | Every page left of the range is in exactly one free block and the lists hold exactly those blocks; the bit maps, of the length the source gives them, agree if and only if the pages left are a multiple of the largest block |
| BuddyInit.InitBits | Weenix/weenix/kernel/mm/page.c:36-90 | Cleared bit maps describe a new group if and only if they have a bit for every page and the pages are whole largest blocks |
| BuddyInit.JoinsWithNothing | Weenix/weenix/kernel/mm/page.c:36-90 | Every left-over block that has a bit can be taken and given back with its bit clear, although its buddy reaches behind the end and is on no list |
| BuddyInit.SomeLeftOver | Weenix/weenix/kernel/mm/page.c:70-79 | Unless the pages are whole largest blocks there is a left-over block |
| PageMaps.PagesLeft | Weenix/weenix/kernel/mm/page.c:42-68 | The group's record and bit maps take the fewest whole pages that hold them |
| PageMaps.MapsCover | Weenix/weenix/kernel/mm/page.c:51-68 | The bit maps of all orders have a bit for every page left if and only if for no order the pages left reach into an incomplete last block while the whole blocks of the range are a multiple of eight |
| PageMaps.MapTooShort | Weenix/weenix/kernel/mm/page.c:51-68 | Of 35 pages exactly 34 are left, and page 32 has no bit of order 2 |
| PageAlloc.PageSystem.constructor | Weenix/weenix/kernel/mm/page.c:104-109 | The allocator starts in order with no groups and no pages |
| PageAlloc.PageSystem.AddRange | Weenix/weenix/kernel/mm/page.c:111-126 | The pages left of a range become one more group, all free and counted, or nothing changes if none are left; the whole stays in order if and only if the pages left are whole largest blocks |
| PageAlloc.PageSystem.AllocOrder | Weenix/weenix/kernel/mm/page.c:186-270 | A request fails exactly when no group has an aligned run of free pages of the size; otherwise the end of a free block becomes one block in use, where no free block in any group that is large enough is of a smaller order; no block in use and no other page changes, the count of free pages goes down by the size, and the invariant of lists, bits and owners is kept |
| PageAlloc.PageSystem.FreeOrder | Weenix/weenix/kernel/mm/page.c:272-329 | Exactly the pages of a block in use become free, merged with free buddies so that no two buddies stay free; other blocks and groups are untouched and the count of free pages goes up by the size; an address outside all groups changes nothing |
| PageAlloc.AllocFreeRestores | Weenix/weenix/kernel/mm/page.c:152-329 | Freeing what was just allocated brings back the very same free blocks, however it was split and joined |
| BuddyLists.AllFreeIsTop | Weenix/weenix/kernel/mm/page.c:272-298 | A group of whole largest blocks with every page free again is made of largest blocks only |
| PageAlloc.OrderFor | Weenix/weenix/kernel/mm/page.c:359-395 | The order chosen for a page count is the smallest that is large enough under the signed comparison; the panic comes exactly above the largest block |
| PageAlloc.OrderIsEnough | Weenix/weenix/kernel/mm/page.c:359-395 | The order chosen holds the pages asked for if and only if the count is below 2^31 |
| SlabGeometry.ChooseOrder | Weenix/weenix/kernel/mm/slab.c:117-158 | In 32-bit arithmetic, the order tried with least waste is chosen, the smallest of several; the panic comes exactly for sane sizes that fit no block, and the division by zero exactly at 2^32 - 8 |
| SlabGeometry.HugeIsNotRefused | Weenix/weenix/kernel/mm/slab.c:117-158 | Objects of 2^31 bytes fit no block, and are not among the sizes refused |
| SlabGeometry.CapacityIsMost | Weenix/weenix/kernel/mm/slab.c:92-104 | A slab holds n objects and its record if and only if n is at most the capacity computed |
| SlabAlloc.Create | Weenix/weenix/kernel/mm/slab.c:160-187 | For every 32-bit size the new allocator is in order, with nothing in use and blocks of least waste, if and only if some block of pages holds an object; otherwise the panic comes if and only if the size does not turn negative |
| SlabAlloc.Allocator.Alloc | Weenix/weenix/kernel/mm/slab.c:202-307 | An object that was not in use is handed out and nothing else changes hands; a slab is added, at the front, exactly when all slabs are full and pages are to be had, and it fails, changing nothing, exactly when they are full and none are |
| SlabAlloc.Allocator.Free | Weenix/weenix/kernel/mm/slab.c:310-338 | Exactly the object given is no longer in use; freeing a free object is noticed, always, and changes nothing |
| SlabAlloc.LiveApart | Weenix/weenix/kernel/mm/slab.c:202-307 | Objects in use lie inside their slab in front of its record and do not overlap |
| SlabAlloc.Allocator.Reclaim | Weenix/weenix/kernel/mm/slab.c:347-379 | Of the slabs looked at exactly those without objects in use are given up, their blocks go to the page allocator in order, the result is the number of pages in them, and no object in use is lost |
| SlabAlloc.ReclaimAll | Weenix/weenix/kernel/mm/slab.c:347-379 | No allocator loses an object in use, all unused slabs are given up unless the target has been met, and the result is the number of pages that the page allocator was given |
| Kmalloc.Heap.constructor | Weenix/weenix/kernel/mm/slab.c:476-495 | Every bucket finds an order of pages, and nothing is in use |
| Kmalloc.Heap.Alloc | Weenix/weenix/kernel/mm/slab.c:405-435 | The loop finds the first bucket with room, which hands out a block that was in use in no bucket, and its header names the bucket; the panic comes exactly when no bucket has room for the size, and it fails exactly when all slabs of the bucket are full and no page is to be had; then nothing changes |
| Kmalloc.Heap.Free | Weenix/weenix/kernel/mm/slab.c:447-466 | The block goes back to the allocator that its header names, which is the one it came from, and no other block changes |
| Kmalloc.Heap.BlocksApart | Weenix/weenix/kernel/mm/slab.c:405-435 | Blocks in use, from one bucket or from two, do not overlap, headers included |
| Kmalloc.WhenFound | Weenix/weenix/kernel/mm/slab.c:405-435 | A bucket is found if and only if size and header, modulo 2^32, are at most 2^18 |
| Kmalloc.HoldsSize | Weenix/weenix/kernel/mm/slab.c:405-435 | The block holds the bytes asked for if and only if size and header do not wrap around |
| PageTable.PageDir.Map | Weenix/weenix/kernel/mm/pagetable.c:107-137 | Exactly one entry of the address space changes, and of the directory only the entry for its table: a new one holds the table's address and the flags, an old one gains the flags; it fails exactly when a table is needed and no page can be had; present bits stay in step with tables if and only if a new table is entered as present |
| PageTable.PageDir.Unmap | Weenix/weenix/kernel/mm/pagetable.c:139-153 | Exactly one entry becomes zero |
| PageTable.PageDir.UnmapRange | Weenix/weenix/kernel/mm/pagetable.c:155-188 | Every page of the range is unmapped, tables wholly inside it are given up and no others, and everything else stays unless both ends lie strictly inside one table |
| PageTable.UnmapIsExactUnlessInsideOne | Weenix/weenix/kernel/mm/pagetable.c:155-188 | Just the range is unmapped if and only if it does not start and end strictly inside one table |
| PageTable.UnmapsNeighbour | Weenix/weenix/kernel/mm/pagetable.c:155-188 | Page 0x401 is mapped and then lost when page 0x402 is unmapped as a range |
| Shadow.Vm.constructor | Weenix/weenix/kernel/vm/shadowd.c:55-110 | Any tree of objects under given areas, without pages, is a state in order |
| Shadow.Vm.GetResident | Weenix/weenix/kernel/mm/pframe.c:189-224 | The search of a hash chain finds the frame of a page if and only if the page is resident |
| Shadow.Vm.Migrate | Weenix/weenix/kernel/mm/pframe.c:321-355 | A frame moves to another object, or is freed when that object has the page; reference counts, hash chains and page lists stay right and no other object sees another page |
| Shadow.Vm.CollapseChain | Weenix/weenix/kernel/vm/shadowd.c:64-101 | Every page seen through every object that is left is the same before and after, all counts stay right, and no object of the chain that is left is shadowed by one object only |
| Shadow.Vm.CollapseAll | Weenix/weenix/kernel/vm/shadowd.c:55-110 | The chains of all areas are collapsed and stay collapsed while the others are, and no page seen changes; it stops only at an object with more than two references |
| Sched.Kernel.constructor | Weenix/weenix/kernel/proc/sched.c:14-27 | Empty queues, free mutexes and threads not yet started satisfy the invariant |
| Sched.Kernel.Lock | Weenix/weenix/kernel/proc/kmutex.c:41-61 | Locking takes a free mutex or queues the thread behind all earlier waiters |
| Sched.Kernel.Unlock | Weenix/weenix/kernel/proc/kmutex.c:104-127 | Unlocking passes the mutex to the thread that has waited longest, or frees it |
| Sched.Kernel.BroadcastOn | Weenix/weenix/kernel/proc/sched.c:154-170 | A broadcast puts a whole wait queue on the run queue in its order |
| Sched.Kernel.Start | Weenix/weenix/kernel/proc/sched.c:297-321 | A new thread goes on the run queue, which is set up anew before that for the first thread of process 0; the invariant is kept if and only if no thread was on it then |
| Sched.Kernel.Yield | Weenix/weenix/kernel/proc/sched.c:297-321 | The same for the running thread |
| SchedSteps.NextInv | Weenix/weenix/kernel/proc/sched.c:30-321 | Every step of every thread keeps the invariant if and only if it does not set up anew a run queue with threads on it |
| SchedRuns.RunKeepsInv | Weenix/weenix/kernel/proc/sched.c:30-321 | Over every run of locks, unlocks, sleeps, wakeups, broadcasts, starts, yields and dispatches in which the run queue is never set up anew with threads on it, queues, counters, states and mutexes agree |
| SchedRuns.ThreadIsLost | Weenix/weenix/kernel/proc/sched.c:297-321 | When a thread and then the first of process 0 are started on an empty run queue, the former is marked as queued and is on no queue |
| SchedRuns.ThreadCanBeLost | Weenix/weenix/kernel/proc/sched.c:14-27 | The first state with two threads is such a state |
| SchedRuns.MutualExclusion | Weenix/weenix/kernel/proc/kmutex.c:41-127 | In every state of every run at most one thread is between lock and unlock of a mutex, and it is the holder |
| SchedRuns.OneQueue | Weenix/weenix/kernel/proc/sched.c:30-78 | In every state of every run a thread is on one queue at most |
| SchedRuns.ServedInOrder | Weenix/weenix/kernel/proc/kmutex.c:41-127 | Over every run, after u unlocks the first u waiters have been served in order and the rest still wait in front of newcomers |
| SchedRuns.RunInOrder | Weenix/weenix/kernel/proc/sched.c:31-321 | Over every run, after u dispatches the first u threads of the run queue have left it in order and the rest stand in front of those that became runnable later |
| SchedRuns.KthToRun | Weenix/weenix/kernel/proc/sched.c:230-321 | Over every run the k-th thread on the run queue is run by the k-th dispatch and stays on the queue until then, whoever comes later |
| SchedRuns.KthToWake | Weenix/weenix/kernel/proc/sched.c:102-153 | Over every run without a broadcast on a queue its k-th sleeper sleeps through k - 1 wakeups, and the k-th makes it runnable |
| SchedRuns.KthWaiter | Weenix/weenix/kernel/proc/kmutex.c:41-127 | Over every run the k-th waiter waits through k - 1 unlocks and holds the mutex after the k-th, whoever comes later |
| Init.Initializer.CallAll | Weenix/weenix/kernel/util/init.c:27-130 | The calls succeed if and only if no group has a defect, and then every function is called once and after its dependencies; a missing name or a cycle is always refused |
| InitGraph.OrderMeansSound | Weenix/weenix/kernel/util/init.c:27-130 | A right order of all functions exists only if no dependency is missing and there is no cycle |
| InitGraph.DiamondIsRefused | Weenix/weenix/kernel/util/init.c:27-66 | Two functions that depend on a third are refused although a right order exists |
| S5Format.Format | Weenix/weenix/tools/fsmaker/api.py:556-591 | A disk is refused exactly for want of inodes or room or for a wrong size; otherwise the free list is the blocks from the last inode block on, in order, and nothing is owned |
| S5Format.LastInodeBlockIsFree | Weenix/weenix/tools/fsmaker/api.py:556-620 | On every new disk exactly the inodes of the last inode block lie in a block that is also free |
| S5Disk.Simdisk.AllocBlock | Weenix/weenix/tools/fsmaker/api.py:633-648 | Allocation pops the stack that the superblock and the chain of blocks spell, and fails exactly when it is empty |
| S5Disk.Simdisk.FreeBlock | Weenix/weenix/tools/fsmaker/api.py:70-79 | Freeing pushes the block on that stack and changes no other block |
| S5Disk.Simdisk.Read | Weenix/weenix/tools/fsmaker/api.py:203-230 | The bytes of the file from an offset on, zero in holes, up to its size and the length asked for |
| S5Disk.Simdisk.Write | Weenix/weenix/tools/fsmaker/api.py:232-270 | Exactly the bytes written change, in this file and in all others; no block is lost or shared; it succeeds exactly when the free blocks suffice for holes and a new indirect block; the size grows only on success |
| S5Disk.Simdisk.ReadBack | Weenix/weenix/tools/fsmaker/api.py:203-270 | Data written are read back |
| S5Disk.Simdisk.Truncate | Weenix/weenix/tools/fsmaker/api.py:272-303 | Exactly the parts cut become holes, their blocks are pushed on the free list in order, and no other file, byte or block changes; it fails only on a file of the largest size, and then changes nothing |
| S5Disk.Simdisk.FreeInode | Weenix/weenix/tools/fsmaker/api.py:461-464 | It fails, changing nothing, exactly on a file of the largest size with an indirect block; otherwise a file that is not empty has all its blocks on the free list after if and only if none lies behind the size and the indirect block, if any, goes with a block in part 28; the blocks cut off go to the end of the free list, and no other inode and no byte of another file changes |
| S5Trunc.NothingLost | Weenix/weenix/tools/fsmaker/api.py:272-303 | A cut leaves every block free or owned if and only if it keeps the indirect block or nothing lies behind the size |
| S5Trunc.FreedWasOwned | Weenix/weenix/tools/fsmaker/api.py:272-303 | Only blocks of the file itself are given back |
| S5Trunc.HoleKeepsIndirect | Weenix/weenix/tools/fsmaker/api.py:272-303 | A file with a hole in part 28 keeps its indirect block when truncated to nothing |
| S5Trunc.BlockBehindIsLost | Weenix/weenix/tools/fsmaker/api.py:272-303 | A block behind the size is neither given back nor kept when the indirect block goes |
| S5Kernel.Super.constructor | Weenix/weenix/kernel/fs/s5fs/s5fs_subr.c:178-210 | A disk without a free block is in order |
| S5Kernel.Super.FreeBlock | Weenix/weenix/kernel/fs/s5fs/s5fs_subr.c:178-210 | The kernel's way of freeing, with the link as last word of its table, pushes the block on the same stack and changes no other block |
| Ramfs.Fs.constructor | Weenix/weenix/kernel/fs/ramfs/ramfs.c:190-229 | The root directory alone, in core, satisfies the invariant: link counts, the list of in-core files, and names once in a directory |
| Ramfs.Fs.Vget | Weenix/weenix/kernel/fs/vnode.c:114-205 | The file is referenced once more, read in if it is not on the list of in-core files, and is never on that list twice |
| Ramfs.Fs.Vput | Weenix/weenix/kernel/fs/vnode.c:230-305 | The file is referenced once less; with the last reference it leaves the list, and the table too if and only if it has no link |
| Ramfs.GetThenPut | Weenix/weenix/kernel/fs/vnode.c:114-305 | Putting a file undoes getting it, in table, link counts and reference counts |
| Ramfs.FreedWhenUnused | Weenix/weenix/kernel/fs/ramfs/ramfs.c:269-287 | A file is freed if and only if its last reference goes and it has no name |
| Ramfs.Fs.Lookup | Weenix/weenix/kernel/fs/ramfs/ramfs.c:403-418 | The file of that name is found, and in core afterwards, if and only if the directory has the name |
| Ramfs.Fs.Create | Weenix/weenix/kernel/fs/ramfs/ramfs.c:320-357 | A data file in core and one entry with the name asked for are added, and no other file, type or entry of any directory changes, unless a slot, a place in the table or memory is wanting |
| Ramfs.Fs.CreateAndLookup | Weenix/weenix/kernel/fs/ramfs/ramfs.c:320-418 | A file that has been created is found under its name |
| Ramfs.Fs.Mknod | Weenix/weenix/kernel/fs/ramfs/ramfs.c:360-401 | As for a data file, with the type asked for, but the device file is not brought into core |
| Ramfs.Fs.Mkdir | Weenix/weenix/kernel/fs/ramfs/ramfs.c:483-527 | A directory with exactly the entries for itself and its parent and one entry with the name asked for are added, and nothing else changes |
| Ramfs.Fs.Link | Weenix/weenix/kernel/fs/ramfs/ramfs.c:420-452 | One entry with the name asked for is added for a file in core, no other file, type or entry changes, and the link count stays the number of its names plus one while in core |
| Ramfs.Fs.Unlink | Weenix/weenix/kernel/fs/ramfs/ramfs.c:454-481 | Exactly that entry goes and the directory has the name no more; the file goes with it if and only if it had no other name and was not in core; every other file and entry keeps type, string and target |
| Ramfs.Fs.Rmdir | Weenix/weenix/kernel/fs/ramfs/ramfs.c:529-575 | A name is refused as absent, no directory or not empty, changing nothing; otherwise exactly that entry goes, the directory has the name no more, and the directory removed goes unless it is in core |
| Term.VirtTerm.HandleChar | Weenix/weenix/kernel/drivers/tty/virtterm.c:402-465 | The ring buffer holds the last rows of the unbounded log of all that was typed, and exactly the cell written and a row added change, for every character |
| TermText.TextStands | Weenix/weenix/kernel/drivers/tty/virtterm.c:402-465 | Printed characters stand in the cells from the cursor on, across rows, with the cursor behind them; all cells before and behind are as they were, rows added are blank, and there are no more of them than needed |
| TermText.ReturnThenText | Weenix/weenix/kernel/drivers/tty/virtterm.c:416-418 | After a return text overwrites the same row from its start |
| TermText.NewlineThenText | Weenix/weenix/kernel/drivers/tty/virtterm.c:425-427 | After a newline text stands at the start of the next row, and the rest of the old row is as it was |
| TermText.BackspacesGoBack | Weenix/weenix/kernel/drivers/tty/virtterm.c:411-415 | Backspaces erase nothing and move the cursor back by as many cells, but not past the first cell that is kept |
| TermText.Retyped | Weenix/weenix/kernel/drivers/tty/virtterm.c:402-465 | Text, backspaces over its end and at least as much text again leave the same log as if the end had never been typed, also across rows |
| TermText.Replaced | Weenix/weenix/kernel/drivers/tty/virtterm.c:402-465 | A backspace and another character replace the last character, also where it filled its row |
| TermText.LinesStand | Weenix/weenix/kernel/drivers/tty/virtterm.c:402-465 | Any number of lines shorter than a row, each ended by a newline, are written on rows of their own with the cursor below the last |
| TermText.RowsAre | Weenix/weenix/kernel/drivers/tty/virtterm.c:402-465 | Each cell of those rows holds the character of its line, or behind the line what it held before |
| Term.VirtTerm.ProvideChar | Weenix/weenix/kernel/drivers/tty/virtterm.c:235-275 | Typing on keeps log and buffer in step; a screen that shows the buffer goes on to show it if and only if it is drawn anew, no cell is drawn, the cell is blank, or it lies in front of the tail as counted from the top |
| TermView.DrawOne | Weenix/weenix/kernel/drivers/tty/virtterm.c:257-268 | Drawing one cell is as good as drawing everything exactly under that condition |
| Term.VirtTerm.Redraw | Weenix/weenix/kernel/drivers/tty/virtterm.c:346-397 | The screen shows the buffer from the top row on, across the end of the ring, and blanks behind the tail |
| Term.VirtTerm.Scroll | Weenix/weenix/kernel/drivers/tty/virtterm.c:174-202 | From wherever the top is, up moves it toward the head and down toward the last row by the lines asked for and no further; a top inside the buffer stays inside, and the screen shows the buffer |
| Term.BufferBounds | Weenix/weenix/kernel/drivers/tty/virtterm.c:402-465 | Head and tail stay at row starts and apart, the cursor between them, however much has been typed |
| Term.BufferMeans | Weenix/weenix/kernel/drivers/tty/virtterm.c:402-465 | From head to tail the ring reads as the end of the log |
| Term.ProvideAll | Weenix/weenix/kernel/drivers/tty/virtterm.c:235-275 | Over every sequence of characters log, buffer and top follow, and the screen shows the buffer after each of them if and only if all meet the condition: the first that does not breaks it |
| Term.ScreenFallsBehind | Weenix/weenix/kernel/drivers/tty/virtterm.c:235-275 | After 100 newlines and 8000 backspaces a letter is drawn that the buffer, seen from the top, does not show |
| ElfImage.CalcArgSize | Weenix/weenix/kernel/api/elf32.c:303-345 | The size computed is that of the header, the vectors and everything they point to |
| Elf.LoadArgs | Weenix/weenix/kernel/api/elf32.c:360-438 | A program that follows the pointers from the block reads exactly the arguments, the environment, the auxiliary vector and the program header, and nothing is written behind them |
| ElfImage.ImageUnique | Weenix/weenix/kernel/api/elf32.c:360-438 | A block can be read as one list of arguments, environment and auxiliary vector only |
| Elf.EndsExactly | Weenix/weenix/kernel/api/elf32.c:303-438 | What is written fits the size computed, and fills it if and only if the program header is asked for once at most or is empty |
| PrintfSpec.StrToULL | Weenix/weenix/kernel/util/printf.c:114-137 | Value and end of the longest run of digits of the base, modulo 2^64 |
| PrintfSpec.StrToULLAuto | Weenix/weenix/kernel/util/printf.c:114-137 | The same with the base taken from the prefix |
| Printf.PutNumber | Weenix/weenix/kernel/util/printf.c:169-268 | The bytes that `number` puts out are sign, prefix, padding and digits in the field asked for, whatever fits the buffer |
| Printf.Vsnprintf | Weenix/weenix/kernel/util/printf.c:280-510 | For every format, arguments and size the result is the length of the full output, and the buffer gets its first size - 1 bytes with a terminator and no other change |
| PrintfSpec.NumberLength | Weenix/weenix/kernel/util/printf.c:169-268 | A number fills its field, and is longer only if sign, prefix and digits need more |
| PrintfFormat.FieldIsFilled | Weenix/weenix/kernel/util/printf.c:280-510 | Every directive with an argument puts out at least its width |
| PrintfSpec.WrittenReadsBack | Weenix/weenix/kernel/util/printf.c:114-268 | Digits written in any base up to 16, in either case, are read back |
| PrintfLaws.StrToLL | Weenix/weenix/kernel/util/printf.c:145-150 | The signed value of a minus sign or none and the longest run of digits, modulo 2^64, and where it ends |
| PrintfLaws.SignedReadsBack | Weenix/weenix/kernel/util/printf.c:114-510 | Every signed number that its size has room for, 16, 32 or 64 bits, is read back by `simple_strtoll` from what `%d` or `%i` with that size puts out |
| PrintfLaws.UnsignedReadsBack | Weenix/weenix/kernel/util/printf.c:114-510 | Every unsigned number of each size is read back from `%o`, `%u`, `%x` and `%X`, and is written without leading zeros |
| PrintfParse.DirectiveRead | Weenix/weenix/kernel/util/printf.c:313-367 | Flags in any order, a width, a precision and a size, each left out, spelled or taken from an argument, are read as what they were spelled for |
| PrintfParse.DirectiveFirst | Weenix/weenix/kernel/util/printf.c:305-505 | The output of a directive followed by any format is that of the directive and then that of the format with the arguments left |
| PrintfParse.TextFirst | Weenix/weenix/kernel/util/printf.c:305-311 | Text without percent signs stands as it is before the output of what follows |
| PrintfLaws.WidthPads | Weenix/weenix/kernel/util/printf.c:169-416 | For `%c`, `%s` and numbers a width puts blanks in front of the output without one, up to the width |
| PrintfLaws.MinusPadsBehind | Weenix/weenix/kernel/util/printf.c:169-416 | The flag `-` puts them behind it, whatever other flags there are |
| PrintfLaws.ZerosFill | Weenix/weenix/kernel/util/printf.c:169-268 | The flag `0` puts zeros behind sign and prefix instead, and nothing else differs |
| PrintfLaws.PrecisionPads | Weenix/weenix/kernel/util/printf.c:216-256 | A precision puts zeros there until there are so many digits |
| PrintfLaws.PlusIsShown | Weenix/weenix/kernel/util/printf.c:183-196 | The flag `+` puts a plus sign in front exactly of numbers that are not negative, a blank likewise, and plus wins |
| PrintfLaws.NoSign | Weenix/weenix/kernel/util/printf.c:183-196 | Neither does anything to unsigned conversions |
| PrintfLaws.PrefixIsShown | Weenix/weenix/kernel/util/printf.c:231-244 | The flag `#` puts `0`, `0x` or `0X` in front, by the conversion letter, and nothing in base 10 |
| PrintfLaws.LargeIsShown | Weenix/weenix/kernel/util/printf.c:173-177 | `%X` is `%x` in large letters |
| PrintfLaws.PointerIsShown | Weenix/weenix/kernel/util/printf.c:418-426 | `%p` is `%08x` without a width and `%x` with one |
| PrintfLaws.TextIsShown | Weenix/weenix/kernel/util/printf.c:392-416 | `%s` is the text, or `<NULL>`, cut off at the precision |
| PrintfLaws.CharIsShown | Weenix/weenix/kernel/util/printf.c:373-390 | `%c` is the low byte of its argument |
| PrintfLaws.OtherLetters | Weenix/weenix/kernel/util/printf.c:444-480 | `%%` is a percent sign, an unknown letter is output behind one, and neither uses up an argument |
| PrintfLaws.ConvertWraps | Weenix/weenix/kernel/util/printf.c:481-499 | An argument differs from the number printed by whole rounds of its size, and the latter lies in the range of the size |
| PrintfSpec.PrefixReadsBack | Weenix/weenix/kernel/util/printf.c:114-268 | Prefixes `0` and `0x` are understood when the base is left open |
| PrintfSpec.LargePrefixIsNotRead | Weenix/weenix/kernel/util/printf.c:114-137 | No number with the prefix `0X` is |
| EdCompile.Compile | Weenix/weenix/user/bin/ed.c:1188-1297 | What is accepted is a pattern, the code is that pattern's, and every pattern whose code fits the buffer is accepted |
| EdSyntax.Unambiguous | Weenix/weenix/user/bin/ed.c:1188-1297 | At no place can two different symbols be read |
| Ed.Matcher.Advance | Weenix/weenix/user/bin/ed.c:1347-1428 | The code matches at a place if and only if the pattern does, and the end is that of the greediest match |
| Ed.Matcher.Execute | Weenix/weenix/user/bin/ed.c:1298-1345 | The search succeeds if and only if the pattern matches somewhere, at the start for a caret, and reports the leftmost match and its brackets; skipping to a first literal changes nothing |
| Ed.Matcher.Cclass | Weenix/weenix/user/bin/ed.c:1430-1444 | A class matches exactly its members, or exactly the others |
| EdPattern.ClassIsChoice | Weenix/weenix/user/bin/ed.c:1360-1444 | A class matches where one of its characters does |
| EdPattern.ClassOrNot | Weenix/weenix/user/bin/ed.c:1360-1444 | A negated class matches exactly where a dot does and the class does not, and a dot where there is a character |
| EdPattern.GreedyIffMatches | Weenix/weenix/user/bin/ed.c:1347-1428 | Backtracking from the longest run of each star finds a match if and only if there is one |
| EdPattern.GreedyIsGreatest | Weenix/weenix/user/bin/ed.c:1347-1428 | The star counts found are the greatest in lexicographic order of all matches at the place |
| EdSearch.Search | Weenix/weenix/user/bin/ed.c:1188-1428 | Compiling and searching finds the leftmost, greediest match of exactly the pattern spelled, for every pattern that fits the buffer and every line |

## Left out

- PageAlloc.PageSystem.AllocOrder: on failure the source also has slab allocators give up unused slabs before it returns, so that pages may have become free; that is not part of this contract, and `SlabAlloc.ReclaimAll` states what it does.
- PageAlloc: the wait for the shadow daemon before a second search, poisoning of pages, and the addresses of the bit maps inside the range.
- SlabAlloc: what an allocator for a size that turns negative does later, the contents of red zones and their checks, the wait for memory, and the page allocator that a new slab comes from, which is a parameter.
- Kmalloc: poisoning, except that it wipes the header of a freed block; the allocator that allocators themselves come from.
- PageTable: the kernel's part of a directory, page faults and flushing of the translation buffer.
- Shadow: how objects are created and forked, the order of the list of allocated frames, pins, dirty and busy bits, and wakeup of waiting threads.
- Sched: cancellation, exit of threads, states of processes, and interrupt levels.
- Init: the section that the functions are collected from.
- S5Disk: the encoding of superblock and inodes in the disk image, growing truncation (the source does not end), directories and link counts.
- S5Format.Format: stops before the entries of the root directory.
- S5Disk.Simdisk.FreeInode: does not model the list of free inodes.
- Ramfs: file contents and sizes, names of 28 characters and more, several mounted file systems, resident pages of vnodes and the wait for a busy one.
- Term: the colour attributes, switching of terminals, the registered callbacks and interrupt blocking.
- Elf: loading of segments and the copy into user space; sizes that overflow 32 bits.
- Printf: stores through `%n`, and widths or precisions that overflow `int`.
- Ed: the other commands, the temporary file, reuse of the last pattern for an empty one, and the mode of `execute` that goes on behind an earlier match.
