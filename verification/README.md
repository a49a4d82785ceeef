# A verified model of a Pintos kernel and some algorithms beside it

This project models the parts of the repository whose correctness depends on
several functions at once, and proves what they promise: most of a Pintos
kernel, the library routines it is linked with, and four self-contained
algorithms. `dafny verify dfyconfig.toml` checks all of it.

| Modules | What they model |
|---|---|
| Bytes, Bitmap, Layout, KernelMemory, FileSystem | files as contiguous extents of sectors, shared in-memory inodes, delayed deletion, the free map and the root directory as files |
| FileRuns, FileFaults | what each call and whole runs of calls do to files, names and handles; what goes wrong with taken names and refused memory |
| HeapBooks, HeapPages, Malloc | the block allocator: arenas, descriptors and free lists on top of a pool of pages |
| PageTables, Addresses, Mmu, PageDir | two-level page tables as 32-bit words, and what the processor makes of them |
| Executable, UserMemory, Loader | checking an ELF file, loading its segments and the stack page through page tables, and what user code then finds |
| Semaphores, Monitors | semaphores, locks and condition variables under every interleaving |
| Scheduler | round-robin scheduling with a time slice of four ticks |
| Processes, ProcessTable | the handshake of wait and exit, first as a state machine, then on thread objects |
| Tokens, ArgStack | splitting a command line and building the initial user stack |
| Arithmetic, Sorting, Printf, Ustar | 64-bit division from a 32-bit instruction, heap sort on bytes, integer formatting and atoi, archive headers |
| Rio | buffered reading of a stream that comes in pieces |
| AdditionChain, StackSort, PathCount | breadth-first search for addition chains, sorting with one stack, counting walks with an explicit stack |

How to read it. Code that changes state is a class or a method on arrays; its
contract ties the new state to the old one by a function or predicate on
values, and the lemmas about those values carry the claims. The concurrent
parts are state machines: a step is what runs with interrupts off, any thread
may take the next step, and `After` is the state after a whole schedule. The
objects of `Monitor`, `Cpu` and `Kernel` are proved to follow their state
machine step for step.

`Valid` is where the invariants are. For the file system it says that every
marked sector belongs to exactly one inode or is known to be leaked, that open
inodes are true copies of their headers and are listed once, that counts of
openers and deniers are right, and that a removed file is named nowhere. For the
heap it says that arenas share no page, that each arena's `free_cnt` is the
number of its blocks on the free list, each there once, that every block is
either free or in use, that no arena is wholly free, and that a page of the pool
is marked exactly if an arena covers it or it belongs to somebody else.

Interrupted or short reads and the order of threads are nondeterministic choices.
Memory that may run out is a `Supply`: a list of answers, granted or not, to the
requests in their order, about which nothing is known beforehand. How many were
refused is a function of the answers and of how many requests there were, and
each call says how many it makes at most and how many if none is refused; so a
contract can say what holds if that number stays the same: a failure blamed on
memory comes with a refused request (`SameRefusals`). `RunWithMemory` and
`FormatAndRun` say what this comes to when every request is granted.

Runs of calls come with a ghost trace of states. A state is what callers can
tell apart: the table of handles, the files by their header's sector, the
directory, the free map and the requests for memory so far; or the bytes each
slot gives access to and the page map. `StepOk`
says what one call does to it, and the lemmas about runs are about traces.

Where the code does not do what it seems meant to do, the model follows the code:

- `filesys_create` gives back only the header when the directory refuses the
  name, so the data extent stays marked for good, exactly if there is room for it
  (`FileSys.Create`, `CreateTwice`).
- The comment in `dir_add` says that `inode_read_at` is short at end of file
  only; it is also short when a bounce buffer cannot be had, and then an entry
  may be entered twice or over another one (`FileSys.DirAdd`, `EnteredUnique`,
  `AddTwice`, `AddOver`).
- Of the last 4107 sizes below 2^32 the first 4096 get no memory and the last
  eleven too little (`PageCountEnough`, `FitsEnough`), so that `calloc` and
  `realloc` write past the block; and `calloc`'s overflow test is incomplete
  (`TestIncomplete`, `CallocTooSmall`).
- `umod64` cuts the remainder to 32 bits (`UnsignedRemainder`), and `sdiv64` and
  `smod64` are off for INT64_MIN by 1 or -1 (`SignedDivision`, `SignedRemainder`).
- `-` and `0` together, which a negative `*` width brings about, pad twice
  (`PrintedLength`, `BothFlags`, `PadsTwice`).
- The first thread, and no other, is put on its own child list, so its wait for
  itself is not refused and never ends (`OnlyFirstIsOwnParent`, `SelfWaitRefused`,
  `SelfWaitNeverReturns`).
- The comment of `process_wait` promises -1 for a child the kernel killed; `kill`
  stores no status, and the wait returns 0 (`MinusOneExactly`,
  `KilledChildReturnsZero`, `KilledChild`).
- The search for addition chains writes past its pool of 100000 nodes for every
  target above 256 (`PoolOfSource`, `LargeTargetOverruns`); the model stops there.

## Model

| member | source | states |
|---|---|---|
| Layout.SectorsFor | cse4070-operating-system/os_prj1_20191599/src/filesys/inode.c:25-29 | the least number of 512-byte sectors that holds that many bytes |
| Layout.HeaderRoundTrip | cse4070-operating-system/os_prj1_20191599/src/filesys/inode.c:15-22 | an on-disk inode read back from its sector is the one written |
| Layout.ChunkOfData | cse4070-operating-system/os_prj1_20191599/src/filesys/inode.c:46-54 | the sector and offset that a position maps to hold exactly that part of the file, and lie in its extent |
| Layout.WriteInsideExtent | cse4070-operating-system/os_prj1_20191599/src/filesys/inode.c:258-318 | bytes changed inside the extent of one inode change no header and no other inode's data |
| Layout.WrittenMeaning | cse4070-operating-system/os_prj1_20191599/src/filesys/inode.c:258-318 | a transfer replaces the bytes of the file it covers and no byte of the disk outside the file's extent |
| Layout.WriteFile | cse4070-operating-system/os_prj1_20191599/src/filesys/inode.c:258-318 | a write to an inode keeps the ownership invariant of the whole device and the headers and data of all others |
| Layout.AccountAllocate | cse4070-operating-system/os_prj1_20191599/src/filesys/free-map.c:27-41 | marking a free run keeps every marked sector explained by exactly one owner or the loose set; the run was in neither |
| Layout.AccountFree | cse4070-operating-system/os_prj1_20191599/src/filesys/free-map.c:43-50 | clearing the bits of loose sectors keeps it too |
| Layout.AccountAdopt | cse4070-operating-system/os_prj1_20191599/src/filesys/inode.c:72-106 | a loose header sector and a loose extent become an inode whose sectors no other inode has |
| Layout.AccountDrop | cse4070-operating-system/os_prj1_20191599/src/filesys/inode.c:171-182 | giving an inode up makes exactly its header and extent loose |
| Layout.EntryRoundTrip | cse4070-operating-system/os_prj1_20191599/src/filesys/directory.c:18-24 | a directory entry survives being written as 20 bytes |
| Layout.EnteredValid | cse4070-operating-system/os_prj1_20191599/src/filesys/directory.c:141-179 | entering a file that no slot names keeps the directory well formed; only what an overwritten slot named is lost |
| Layout.ErasedValid | cse4070-operating-system/os_prj1_20191599/src/filesys/directory.c:184-216 | erasing an entry removes one file's name, that of no other, and keeps the directory well formed |
| Layout.EnteredIsFound | cse4070-operating-system/os_prj1_20191599/src/filesys/directory.c:91-179 | after adding a new name a lookup finds it with its sector, and every other name as before; names stay unique |
| Layout.ErasedIsGone | cse4070-operating-system/os_prj1_20191599/src/filesys/directory.c:91-216 | after removing a unique name no entry has it, and every other name is found as before |
| Bitmap.Contains | cse4070-operating-system/os_prj1_20191599/src/lib/kernel/bitmap.c:248-263 | says whether some bit of the range has the value |
| Bitmap.Scan | cse4070-operating-system/os_prj1_20191599/src/lib/kernel/bitmap.c:291-310 | finds the first run of that many equal bits, or shows that there is none; an empty run is found at once |
| Bitmap.ImageRoundTrip | cse4070-operating-system/os_prj1_20191599/src/lib/kernel/bitmap.c:331-360 | every bit of the free map can be read back from the bytes its file holds |
| FileSystem.FileSys.constructor | cse4070-operating-system/os_prj1_20191599/src/filesys/free-map.c:11-20 | at the start just the two system sectors are marked |
| FileSystem.ChunkSize | cse4070-operating-system/os_prj1_20191599/src/filesys/inode.c:210-227 | a pass of a transfer loop stays in the request, the file and one sector, and is empty only past the end of the file |
| FileSystem.FileSys.ReadAt | cse4070-operating-system/os_prj1_20191599/src/filesys/inode.c:197-250 | the bytes delivered are those of the file from the offset on: min (size, max (0, length - offset)) of them, or the whole sectors before the first partial one if the one request for a bounce buffer is refused; whole-sector transfers make none; the rest of the buffer is untouched |
| FileSystem.FileSys.WriteAt | cse4070-operating-system/os_prj1_20191599/src/filesys/inode.c:252-318 | the file becomes the old one with exactly as many bytes replaced, no other file changes, a denied write changes nothing |
| FileSystem.FileSys.WriteChunk | cse4070-operating-system/os_prj1_20191599/src/filesys/inode.c:276-310 | a whole sector or a part of one by way of a bounce buffer has the same effect: just the given bytes change |
| FileSystem.FileSys.BitmapWrite | cse4070-operating-system/os_prj1_20191599/src/lib/kernel/bitmap.c:354-360 | a success leaves the free map's file equal to the map, and it succeeds exactly if no memory is refused; nothing but that file changes |
| FileSystem.FileSys.FreeMapAllocate | cse4070-operating-system/os_prj1_20191599/src/filesys/free-map.c:22-41 | takes the first free run, and the map's file has it; if the map cannot be written nothing is taken; if memory suffices it fails only if no run is free |
| FileSystem.FileSys.FreeMapRelease | cse4070-operating-system/os_prj1_20191599/src/filesys/free-map.c:43-50 | frees sectors that were all marked, and no others; unless memory is refused the map's file on disk is then the map |
| FileSystem.FileSys.InodeCreate | cse4070-operating-system/os_prj1_20191599/src/filesys/inode.c:67-106 | a success turns the sector into a header for the first free run, all zero; a failure leaves the free map as it was, and unless memory was refused there was no such run |
| FileSystem.FileSys.FindOpen | cse4070-operating-system/os_prj1_20191599/src/filesys/inode.c:117-127 | finds the open inode of a sector exactly when there is one |
| FileSystem.FileSys.InodeOpen | cse4070-operating-system/os_prj1_20191599/src/filesys/inode.c:108-142 | an inode already open is shared and counted once more, otherwise a new one is read and listed; none is listed twice; null exactly if memory is refused |
| FileSystem.FileSys.InodeReopen | cse4070-operating-system/os_prj1_20191599/src/filesys/inode.c:144-151 | one more reference to the same inode |
| FileSystem.FileSys.InodeRemove | cse4070-operating-system/os_prj1_20191599/src/filesys/inode.c:188-195 | the inode is marked and everything else stays |
| FileSystem.FileSys.InodeClose | cse4070-operating-system/os_prj1_20191599/src/filesys/inode.c:160-186 | only the last reference unlists the inode, and then the sectors of a removed file, all marked, are freed and no others |
| FileSystem.FileSys.DenyWrite | cse4070-operating-system/os_prj1_20191599/src/filesys/file.c:116-127 | the count of deniers rises for a handle that did not deny, and stays within the count of openers |
| FileSystem.FileSys.AllowWrite | cse4070-operating-system/os_prj1_20191599/src/filesys/file.c:129-141 | undoes a denial once; a handle that does not deny changes nothing |
| FileSystem.FileSys.Lookup | cse4070-operating-system/os_prj1_20191599/src/filesys/directory.c:86-112 | stops at the first entry in use with the name, at the end, or at the first entry for whose reading memory is refused, and says found in the first case only |
| FileSystem.FileSys.FindFreeSlot | cse4070-operating-system/os_prj1_20191599/src/filesys/directory.c:160-172 | stops at the first slot that is not in use, at the end, or at the first for whose reading memory is refused |
| FileSystem.FileSys.DirAdd | cse4070-operating-system/os_prj1_20191599/src/filesys/directory.c:135-179 | succeeds exactly if the name is valid, the search saw no entry with it, and the slot where the second search stopped is inside and can be written; if no memory is refused that is exactly if the name is valid and new and a slot is free; one slot changes or nothing does |
| FileSystem.FileSys.CreateIn | cse4070-operating-system/os_prj1_20191599/src/filesys/filesys.c:45-59 | success adds one inode and its name; a refused name leaves exactly the data extent of the file marked without an owner |
| FileSystem.FileSys.Create | cse4070-operating-system/os_prj1_20191599/src/filesys/filesys.c:41-59 | keeps the file system valid and every other file; if memory suffices it succeeds exactly if there is room and the name is not refused, and leaks exactly if there is room and the name is refused, after a number of requests for memory that the directory and the free map decide; what is leaked is the one run of sectors first fit gave the data; unless memory is refused a map that has changed is in its file, and one that was there still is |
| FileSystem.FileSys.RemoveIn | cse4070-operating-system/os_prj1_20191599/src/filesys/directory.c:181-216 | the name goes at once; the sectors go at once only if nobody has the file open, otherwise the open inode is marked; if memory suffices it fails exactly if no entry has the name |
| FileSystem.FileSys.Remove | cse4070-operating-system/os_prj1_20191599/src/filesys/filesys.c:79-91 | the same for filesys_remove; every handle that is open still reads the same bytes; unless memory is refused the map's file follows the map; if memory suffices the directory and the open files decide how many requests for it are made |
| FileSystem.FileSys.OpenNamed | cse4070-operating-system/os_prj1_20191599/src/filesys/directory.c:114-133 | the inode of the first entry with the name, shared with its other openers; if memory suffices there is one exactly if some entry has the name |
| FileSystem.FileSys.FileOpen | cse4070-operating-system/os_prj1_20191599/src/filesys/file.c:14-34 | the new handle owns the reference; without memory the reference is given back |
| FileSystem.FileSys.Open | cse4070-operating-system/os_prj1_20191599/src/filesys/filesys.c:61-77 | a new handle at position 0 on the file with that name, exactly if there is one, unless memory is refused; if it is not, the place of the name decides how many requests are made |
| FileSystem.FileSys.FileClose | cse4070-operating-system/os_prj1_20191599/src/filesys/file.c:44-54 | the last handle on a removed file frees the file's sectors; no other close changes the disk or the free map; unless memory is refused the map's file follows the map |
| FileSystem.FileSys.Read | cse4070-operating-system/os_prj1_20191599/src/filesys/file.c:63-74 | reads exactly as many bytes as ReadAt from the handle's position and moves it by them |
| FileSystem.FileSys.Write | cse4070-operating-system/os_prj1_20191599/src/filesys/file.c:87-100 | writes exactly as many bytes as WriteAt at the handle's position and moves it by them; the directory stays valid |
| FileSystem.FileSys.DataKept | cse4070-operating-system/os_prj1_20191599/src/filesys/inode.c:160-195 | files whose inodes are kept read the same through every open handle, removed or not |
| FileSystem.FileSys.LiveFilesApart | cse4070-operating-system/os_prj1_20191599/src/filesys/inode.c:67-195 | in a valid file system the header and data sectors of files that are named or open are marked, and those of two such files are disjoint |
| FileSystem.FileSys.FreeMapCreate | cse4070-operating-system/os_prj1_20191599/src/filesys/free-map.c:70-85 | the free map's own file is made, opened for good and written; on success just the root directory's sector is left over |
| FileSystem.Format | cse4070-operating-system/os_prj1_20191599/src/filesys/filesys.c:16-31 | a formatted file system is valid, with an empty root directory of 16 entries, nothing leaked and its map in the map's file; if memory suffices it comes about exactly if the device has room for both system files |
| FileSystem.FillEntry | cse4070-operating-system/os_prj1_20191599/src/filesys/directory.c:174-177 | the entry written decodes to the name and the sector |
| Layout.EnteredUnique | cse4070-operating-system/os_prj1_20191599/src/filesys/directory.c:150-179 | names stay unique after an entry is made exactly if no other slot had the name, which the search of dir_add may not have seen |
| FileFaults.CreateTwice | cse4070-operating-system/os_prj1_20191599/src/filesys/filesys.c:41-59 | the second creation of a name fails and loses the sectors of its data, which stay marked |
| FileFaults.AddTwice | cse4070-operating-system/os_prj1_20191599/src/filesys/directory.c:150-179 | a directory and one refused request with which dir_add makes a second entry of a name |
| FileFaults.AddOver | cse4070-operating-system/os_prj1_20191599/src/filesys/directory.c:160-179 | a directory and one refused request with which dir_add overwrites the entry of another file |
| FileRuns.Perform | cse4070-operating-system/os_prj1_20191599/src/filesys/filesys.c:41-91 | each call does to files, directory, handles and free map just what StepOk says: which file is made, found, cut loose or freed, which bytes are read or written, when a call fails, how many requests for memory it makes, and that the map's file follows the map unless one is refused |
| FileRuns.Run | cse4070-operating-system/os_prj1_20191599/src/filesys/filesys.c:41-91 | so does every call of any run of create, open, read, write, deny, allow, close and remove, through states in which files have marked sectors of their own and a removed file has a handle and no name; each state counts the requests for memory behind it, of which so many were refused as the answers say, and no call makes more than its share |
| FileRuns.HandleStays | cse4070-operating-system/os_prj1_20191599/src/filesys/file.c:9-54 | a handle stays open on its file until it is closed |
| FileRuns.FileStays | cse4070-operating-system/os_prj1_20191599/src/filesys/inode.c:158-195 | a file that some handle stays open on stays, removed or not, with the same header, and with the same bytes unless it is written to |
| FileRuns.ReleasedAtLastClose | cse4070-operating-system/os_prj1_20191599/src/filesys/inode.c:158-195 | a file removed while open that is gone after a run was there until the close of its last handle, and that close freed its header and data sectors, all marked, and no others |
| FileRuns.NamesStay | cse4070-operating-system/os_prj1_20191599/src/filesys/directory.c:86-216 | over a run without a refused request names stay unique, a name stands for the same file until it is removed and for none until it is created |
| FileRuns.MapFileStays | cse4070-operating-system/os_prj1_20191599/src/filesys/free-map.c:21-50 | over a run without a refused request the file of the free map stays equal to the map |
| FileRuns.MapBits | cse4070-operating-system/os_prj1_20191599/src/filesys/free-map.c:21-50 | then bit i of byte j of that file says whether sector 8 j + i is marked, in every state |
| FileRuns.RunWithMemory | cse4070-operating-system/os_prj1_20191599/src/filesys/filesys.c:41-91 | when every request for memory is granted, each call of any run is decided by the files and handles alone: a creation succeeds exactly with room and an acceptable name, a removal and an open exactly if the name is there, reads and writes move all there is to move; unique names stay unique, and the map's file has the map after every call if it had it before |
| FileRuns.FormatAndRun | cse4070-operating-system/os_prj1_20191599/src/filesys/filesys.c:14-103 | with memory for every request a device is formatted exactly if its sectors suffice, and every run from there on starts without files, goes as RunWithMemory says and has the map in its file in every state |
| FileRuns.StepServed | cse4070-operating-system/os_prj1_20191599/src/filesys/filesys.c:41-91 | a call during which no request was refused is decided by the files and handles alone: whether it makes, removes or finds the file, and how many bytes it moves |
| FileRuns.NoNamesYet | cse4070-operating-system/os_prj1_20191599/src/filesys/filesys.c:93-103 | a formatted directory has no names, so unique ones |
| FileRuns.OpenAfterCreate | cse4070-operating-system/os_prj1_20191599/src/filesys/filesys.c:41-77 | if no request for memory is refused, an open finds the file created by that name, whatever came between but its removal |
| FileRuns.OpenAfterRemove | cse4070-operating-system/os_prj1_20191599/src/filesys/filesys.c:61-91 | if no request for memory is refused, an open finds nothing once the name has been removed, whatever came between but its creation |
| HeapBooks.BlocksApart | cse4070-operating-system/os_prj1_20191599/src/threads/malloc.c:284-294 | blocks of one arena do not overlap |
| HeapBooks.LiveDisjoint | cse4070-operating-system/os_prj1_20191599/src/threads/malloc.c:87-154 | blocks in use do not overlap to their full capacity, in whatever arenas they are |
| HeapBooks.ArenaAdded | cse4070-operating-system/os_prj1_20191599/src/threads/malloc.c:124-146 | a new arena puts each of its blocks on the free list once and counts them all |
| HeapBooks.Taken | cse4070-operating-system/os_prj1_20191599/src/threads/malloc.c:148-153 | handing out a block keeps every arena's free_cnt equal to the number of its blocks on the list |
| HeapBooks.PutBack | cse4070-operating-system/os_prj1_20191599/src/threads/malloc.c:231-242 | freeing a block keeps it too, with each free block on the list once |
| HeapBooks.LastFreedFirst | cse4070-operating-system/os_prj1_20191599/src/threads/malloc.c:123-242 | the block freed last is the next one handed out of its list, and then all is as before |
| HeapBooks.BlockSeqAt | cse4070-operating-system/os_prj1_20191599/src/threads/malloc.c:139-143 | a new arena lists its blocks from the lowest address up |
| HeapBooks.ArenaDropped | cse4070-operating-system/os_prj1_20191599/src/threads/malloc.c:241-253 | taking a wholly free arena's blocks off the list leaves the other arenas and all blocks in use as they were |
| HeapPages.OwnersAdded | cse4070-operating-system/os_prj1_20191599/src/threads/malloc.c:105-146 | a new arena on pages nobody had marked keeps every marked page with one owner, an arena or somebody else |
| HeapPages.OwnersDropped | cse4070-operating-system/os_prj1_20191599/src/threads/malloc.c:241-262 | unmarking the pages of an arena that goes keeps it too |
| HeapPages.CoveredByLive | cse4070-operating-system/os_prj1_20191599/src/threads/malloc.c:87-264 | without idle arenas the pages of the arenas are exactly those the blocks in use reach over |
| Malloc.PageCountEnough | cse4070-operating-system/os_prj1_20191599/src/threads/malloc.c:107-112 | the page count is the least that is enough for the request exactly below the last eleven sizes, and is zero exactly where the sum wraps below a page |
| Malloc.FitsEnough | cse4070-operating-system/os_prj1_20191599/src/threads/malloc.c:87-154 | what a request gets is at least its size exactly if its page count did not wrap; else it is 4084 bytes |
| Malloc.DescriptorLaw | cse4070-operating-system/os_prj1_20191599/src/threads/malloc.c:71-85 | block sizes double from 16 to the last below half a page, each with as many blocks as an arena holds |
| Malloc.TestIncomplete | cse4070-operating-system/os_prj1_20191599/src/threads/malloc.c:156-168 | the overflow test passes a product that wrapped exactly if taking the larger factor off it stays between the same two multiples of 2^32 |
| Malloc.CallocTooSmall | cse4070-operating-system/os_prj1_20191599/src/threads/malloc.c:156-175 | calloc (65537, 65537) gives out 131073 bytes or more, and less than the product, or nothing exactly if there is no run of pages for them |
| Malloc.Heap.constructor | cse4070-operating-system/os_prj1_20191599/src/threads/malloc.c:71-85 | descriptors for 16 to 1024 bytes, and no block |
| Malloc.Heap.PallocGet | cse4070-operating-system/os_prj1_20191599/src/threads/palloc.c:64-101 | the first run of so many free pages, marked; fails exactly if there is none or none is asked for |
| Malloc.Heap.FindDesc | cse4070-operating-system/os_prj1_20191599/src/threads/malloc.c:100-105 | the smallest descriptor that satisfies the request |
| Malloc.Heap.BigBlock | cse4070-operating-system/os_prj1_20191599/src/threads/malloc.c:105-120 | a big block on the first run of free pages long enough, which alone is marked, disjoint from every block in use; null exactly if there is no such run |
| Malloc.Heap.Malloc | cse4070-operating-system/os_prj1_20191599/src/threads/malloc.c:87-154 | a new block of at least the size asked for (exactly if the page count does not wrap) and of the first size that fits, from the front of its list or on the first run of free pages, which alone is marked then; no other block changes; null exactly if nothing is asked for, or no free block is listed and no run is long enough |
| Malloc.Heap.Free | cse4070-operating-system/os_prj1_20191599/src/threads/malloc.c:216-264 | the block is no longer in use, all others hold what they held; exactly the pages of its arena are unmarked if no block there is left in use, and none otherwise |
| Malloc.Heap.DropIdle | cse4070-operating-system/os_prj1_20191599/src/threads/malloc.c:241-253 | giving an idle arena's page back unmarks that page alone and changes no block in use |
| Malloc.Heap.FreePages | cse4070-operating-system/os_prj1_20191599/src/threads/malloc.c:257-262 | exactly the pages of a big block are unmarked and no other block changes |
| Malloc.Heap.Calloc | cse4070-operating-system/os_prj1_20191599/src/threads/malloc.c:156-175 | a block of a * b modulo 2^32 bytes, zero, which is enough exactly below 2^32 - 11; overruns its page exactly for the last eleven such sizes; pages are marked, and the request refused, just as by malloc, or nothing happens as the test fails |
| Malloc.Heap.BlockSize | cse4070-operating-system/os_prj1_20191599/src/threads/malloc.c:177-186 | the number of bytes the block has room for |
| Malloc.Heap.Realloc | cse4070-operating-system/os_prj1_20191599/src/threads/malloc.c:188-214 | the common prefix moves to the new block, the old one is freed, others are untouched, and pages are marked and then unmarked just as by malloc and free; on failure, exactly where malloc fails, the old block stays; the copy overruns exactly for the last eleven sizes from a block of more than a page |
| Malloc.Heap.Separate | cse4070-operating-system/os_prj1_20191599/src/threads/malloc.c:87-264 | blocks in use are disjoint in every valid heap |
| Malloc.Heap.NothingKept | cse4070-operating-system/os_prj1_20191599/src/threads/malloc.c:216-264 | a heap without blocks in use has no arena and the page map it started with |
| Malloc.Heap.LiveBlock | cse4070-operating-system/os_prj1_20191599/src/threads/malloc.c:266-282 | a block in use lies in an arena, and a big one right after its header |
| Malloc.Perform | cse4070-operating-system/os_prj1_20191599/src/threads/malloc.c:87-264 | each call does to the client's slots and the page map just what StepOk says: a new block of the first size that fits, a spare one or else on the first free run, or none exactly if there is neither; zeros, null, the common prefix, the bytes stored; pages unmarked exactly if no other block lies on them |
| Malloc.Run | cse4070-operating-system/os_prj1_20191599/src/threads/malloc.c:87-264 | so does every call of any run of malloc, calloc, realloc, free and stores, through states whose blocks are separate and in their arenas' places, and whose page map is that of the others and the pages under the blocks, no more and no less; only an overrun cuts it short |
| Malloc.AllPagesBack | cse4070-operating-system/os_prj1_20191599/src/threads/malloc.c:216-264 | in a state of a run in which no slot has a block all pages that malloc took are back |
| Malloc.SpareShown | cse4070-operating-system/os_prj1_20191599/src/threads/malloc.c:123-154 | whether a free block is listed for a request can be told from the slots: it is exactly if a page with a block of that size has another that no slot has |
| Malloc.UntouchedKept | cse4070-operating-system/os_prj1_20191599/src/threads/malloc.c:87-264 | a slot that no call names has the same block with the same bytes after the run |
| Malloc.DataStays | cse4070-operating-system/os_prj1_20191599/src/threads/malloc.c:188-264 | the first bytes of a block survive any run in which its slot is only reallocated to at least as many bytes |
| Arithmetic.Nlz | cse4070-operating-system/os_prj1_20191599/src/lib/arithmetic.c:39-73 | the count is the number of leading zeros: shifting by it brings the top bit to bit 31 |
| Arithmetic.LeadingZerosUnique | cse4070-operating-system/os_prj1_20191599/src/lib/arithmetic.c:39-42 | no other shift count does |
| Arithmetic.NarrowDivision | cse4070-operating-system/os_prj1_20191599/src/lib/arithmetic.c:80-93 | a 32-bit divisor: neither divl traps and the result is the floor |
| Arithmetic.EstimateWithinOne | cse4070-operating-system/os_prj1_20191599/src/lib/arithmetic.c:95-124 | dividing by the divisor cut to its top 32 bits gives the quotient or one more |
| Arithmetic.WideEstimate | cse4070-operating-system/os_prj1_20191599/src/lib/arithmetic.c:95-124 | so does the estimate of the wide case, and its divl does not trap |
| Arithmetic.CorrectionIsExact | cse4070-operating-system/os_prj1_20191599/src/lib/arithmetic.c:95-124 | one multiplication and comparison, with their wrap-around, make the estimate exact |
| Arithmetic.UnsignedDivision | cse4070-operating-system/os_prj1_20191599/src/lib/arithmetic.c:75-127 | udiv64 is the floor of the quotient for every dividend and divisor, and traps exactly for divisor 0 |
| Arithmetic.UnsignedRemainder | cse4070-operating-system/os_prj1_20191599/src/lib/arithmetic.c:129-135 | umod64 is the remainder modulo 2^32, so it is right exactly if the remainder fits in 32 bits |
| Arithmetic.SignedDivision | cse4070-operating-system/os_prj1_20191599/src/lib/arithmetic.c:137-146 | sdiv64 truncates toward zero exactly if it is not INT64_MIN divided by 1 or -1 |
| Arithmetic.SignedRemainder | cse4070-operating-system/os_prj1_20191599/src/lib/arithmetic.c:148-154 | smod64 is the remainder modulo 2^32 with the sign of the dividend, right exactly if it fits in 32 bits; undefined for INT64_MIN by 1 or -1 |
| Semaphores.SemaRunOk | cse4070-operating-system/os_prj1_20191599/src/threads/synch.c:53-121 | in every schedule the value is the initial one plus ups less completed downs, and while somebody sleeps it is at most the number of woken threads on their way |
| Semaphores.WokenInOrder | cse4070-operating-system/os_prj1_20191599/src/threads/synch.c:53-121 | the thread an up wakes is the one that has slept longest: the n-th woken is the n-th that went to sleep; and a woken thread is on its way just until its next down |
| Semaphores.ValueLaw | cse4070-operating-system/os_prj1_20191599/src/threads/synch.c:53-121 | the value is what was there and what ups have added, less one for each unit that was there and taken |
| Semaphores.Semaphore.constructor | cse4070-operating-system/os_prj1_20191599/src/threads/synch.c:38-51 | a semaphore with its initial value and no history |
| Semaphores.Semaphore.DownStep | cse4070-operating-system/os_prj1_20191599/src/threads/synch.c:53-76 | one pass through the test: the thread is done exactly if the value was positive, else it is last on the list |
| Semaphores.Semaphore.TryDown | cse4070-operating-system/os_prj1_20191599/src/threads/synch.c:78-102 | takes a unit exactly if there is one |
| Semaphores.Semaphore.UpStep | cse4070-operating-system/os_prj1_20191599/src/threads/synch.c:104-121 | the value rises and the first sleeper, if any, is the one to unblock |
| Monitors.InvKept | cse4070-operating-system/os_prj1_20191599/src/threads/synch.c:184-338 | every step of a lock or condition operation keeps the invariant of lock, list and private semaphores |
| Monitors.EveryRunOk | cse4070-operating-system/os_prj1_20191599/src/threads/synch.c:167-338 | so it holds in every schedule of any threads |
| Monitors.MutualExclusion | cse4070-operating-system/os_prj1_20191599/src/threads/synch.c:184-236 | in every reachable state the semaphore's value and the number of threads between taking and returning the lock add up to 1, and the holder is the one that holds |
| Monitors.LockWakeUpNotLost | cse4070-operating-system/os_prj1_20191599/src/threads/synch.c:184-236 | a free lock with sleepers has a woken thread that can take it |
| Monitors.SignalReleasesOldest | cse4070-operating-system/os_prj1_20191599/src/threads/synch.c:304-322 | a signal releases the oldest wait and no other, whether its thread sleeps already or not |
| Monitors.PassesExactlyIfReleased | cse4070-operating-system/os_prj1_20191599/src/threads/synch.c:288-302 | at its own semaphore a waiting thread passes exactly if it has been released |
| Monitors.ReleaseIsStable | cse4070-operating-system/os_prj1_20191599/src/threads/synch.c:284-322 | no step of others takes a release back or gives one except a signal to that thread |
| Monitors.ListGuardedByLock | cse4070-operating-system/os_prj1_20191599/src/threads/synch.c:284-322 | only the lock's owner changes the list of waits |
| Monitors.BroadcastReleasesAll | cse4070-operating-system/os_prj1_20191599/src/threads/synch.c:324-338 | a broadcast releases every wait on the list, and the list is empty |
| Monitors.FreeLockIsTaken | cse4070-operating-system/os_prj1_20191599/src/threads/synch.c:184-221 | lock_try_acquire takes the lock exactly if it is free and else changes nothing; lock_acquire then puts the thread last among those that sleep |
| Monitors.HolderIsRecorded | cse4070-operating-system/os_prj1_20191599/src/threads/synch.c:193-201 | whoever has the lock's semaphore gets to be its holder, whatever others do before that |
| Monitors.ReleaseFreesLock | cse4070-operating-system/os_prj1_20191599/src/threads/synch.c:223-302 | a release, and the one in cond_wait, leaves the lock free and wakes the first of its sleepers, whatever others do between its two halves; the thread is then outside, or about to go down on its own semaphore |
| Monitors.Monitor.DownLock | cse4070-operating-system/os_prj1_20191599/src/threads/synch.c:184-201 | sema_down in lock_acquire: the objects change exactly as that step of the state machine, and stay valid |
| Monitors.Monitor.TryDownLock | cse4070-operating-system/os_prj1_20191599/src/threads/synch.c:203-221 | sema_try_down in lock_try_acquire: the objects change exactly as that step of the state machine, and stay valid |
| Monitors.Monitor.ClaimLock | cse4070-operating-system/os_prj1_20191599/src/threads/synch.c:193-201 | the holder is recorded: the objects change exactly as that step of the state machine, and stay valid |
| Monitors.Monitor.LetGo | cse4070-operating-system/os_prj1_20191599/src/threads/synch.c:223-236 | the holder is cleared, in a release or a wait: the objects change exactly as that step of the state machine, and stay valid |
| Monitors.Monitor.ReturnLock | cse4070-operating-system/os_prj1_20191599/src/threads/synch.c:223-236 | sema_up of the lock, then outside or on to the private semaphore: the objects change exactly as that step of the state machine, and stay valid |
| Monitors.Monitor.QueueUp | cse4070-operating-system/os_prj1_20191599/src/threads/synch.c:284-302 | a private semaphore, last on the list: the objects change exactly as that step of the state machine, and stay valid |
| Monitors.Monitor.DownOwn | cse4070-operating-system/os_prj1_20191599/src/threads/synch.c:284-302 | sema_down on the private semaphore: the objects change exactly as that step of the state machine, and stay valid |
| Monitors.Monitor.ChooseWaiter | cse4070-operating-system/os_prj1_20191599/src/threads/synch.c:304-322 | the oldest waiter leaves the list: the objects change exactly as that step of the state machine, and stay valid |
| Monitors.Monitor.WakeWaiter | cse4070-operating-system/os_prj1_20191599/src/threads/synch.c:304-322 | its private semaphore goes up: the objects change exactly as that step of the state machine, and stay valid |
| Monitors.Monitor.Run | cse4070-operating-system/os_prj1_20191599/src/threads/synch.c:184-338 | the objects follow the state machine through any schedule |
| Scheduler.SomeThreadToRun | cse4070-operating-system/os_prj1_20191599/src/threads/thread.c:487-495 | when a thread leaves the processor there is a thread to switch to that is not dying, and it is a ready one if there is any |
| Scheduler.InvKept | cse4070-operating-system/os_prj1_20191599/src/threads/thread.c:102-309 | block, unblock, yield, exit, create and tick keep the scheduler's invariant |
| Scheduler.EveryRunOk | cse4070-operating-system/os_prj1_20191599/src/threads/thread.c:87-309 | in every reachable state one thread runs, the ready list has every other ready thread but the idle one exactly once and nothing else, and the list of all threads has each that is not dying once |
| Scheduler.ReadyMovesUp | cse4070-operating-system/os_prj1_20191599/src/threads/thread.c:487-563 | a schedule runs the head of the ready list and moves the others up one; no other step reorders it |
| Scheduler.Advances | cse4070-operating-system/os_prj1_20191599/src/threads/thread.c:487-563 | the thread at index k is at index k - n after n schedules |
| Scheduler.RunsInTurn | cse4070-operating-system/os_prj1_20191599/src/threads/thread.c:487-563 | so the (k + 1)-th schedule dispatches it |
| Scheduler.TicksForceSwitches | cse4070-operating-system/os_prj1_20191599/src/threads/thread.c:118-137 | ticks are at most four times the schedules, plus three |
| Scheduler.RunsWithinTicks | cse4070-operating-system/os_prj1_20191599/src/threads/thread.c:118-137 | the thread at index k runs within 4 (k + 1) ticks of every run that has as many |
| Scheduler.SleepsUntilUnblocked | cse4070-operating-system/os_prj1_20191599/src/threads/thread.c:202-236 | a blocked thread is never current nor on the ready list, whatever others do, until it is unblocked, and then it is last there |
| Scheduler.BlockSleeps | cse4070-operating-system/os_prj1_20191599/src/threads/thread.c:202-215 | so a thread that blocks, the idle one apart, is blocked from then on until it is unblocked |
| Scheduler.CreatedInTwoSteps | cse4070-operating-system/os_prj1_20191599/src/threads/thread.c:146-200 | so does a new thread between the two halves of its creation |
| Scheduler.ExitIsForGood | cse4070-operating-system/os_prj1_20191599/src/threads/thread.c:270-292 | a thread that exits is on no list and never runs again |
| Scheduler.PreemptedGoesLast | cse4070-operating-system/os_prj1_20191599/src/threads/thread.c:118-137 | a thread that yields or has used up its slice goes behind those that are ready, and the first of them runs; the idle thread goes on no list |
| Scheduler.SliceIsWhole | cse4070-operating-system/os_prj1_20191599/src/threads/thread.c:118-137 | a thread that does not give up the processor keeps it for four ticks |
| Scheduler.SliceStarts | cse4070-operating-system/os_prj1_20191599/src/threads/thread.c:497-540 | whoever is switched to starts with a whole slice, and only a schedule switches |
| Scheduler.IdleKnown | cse4070-operating-system/os_prj1_20191599/src/threads/thread.c:374-402 | from its first run on the idle thread is known, and it is the second thread |
| Scheduler.Cpu.constructor | cse4070-operating-system/os_prj1_20191599/src/threads/thread.c:87-116 | the state at the start of thread_start |
| Scheduler.Cpu.Reschedule | cse4070-operating-system/os_prj1_20191599/src/threads/thread.c:542-563 | schedule, from any state in which the current thread is off the processor, restores the invariant |
| Scheduler.Cpu.ThreadBlock | cse4070-operating-system/os_prj1_20191599/src/threads/thread.c:202-215 | thread_block is its step of the state machine |
| Scheduler.Cpu.ThreadUnblock | cse4070-operating-system/os_prj1_20191599/src/threads/thread.c:217-236 | thread_unblock is its step |
| Scheduler.Cpu.ThreadYield | cse4070-operating-system/os_prj1_20191599/src/threads/thread.c:294-309 | thread_yield is its step, also from the end of an interrupt |
| Scheduler.Cpu.ThreadExit | cse4070-operating-system/os_prj1_20191599/src/threads/thread.c:270-292 | thread_exit is its step |
| Scheduler.Cpu.InitThread | cse4070-operating-system/os_prj1_20191599/src/threads/thread.c:438-468 | init_thread is the first half of a creation: a blocked thread with a new tid on the list of all |
| Scheduler.Cpu.ThreadCreate | cse4070-operating-system/os_prj1_20191599/src/threads/thread.c:146-200 | thread_create is its two steps, or nothing without a page, and the tid is new |
| Scheduler.Cpu.TimerInterrupt | cse4070-operating-system/os_prj1_20191599/src/threads/thread.c:118-137 | a tick is its step: the fourth one of a slice yields |
| Scheduler.Cpu.IdleStarts | cse4070-operating-system/os_prj1_20191599/src/threads/thread.c:374-402 | the idle thread's first run is its step |
| Scheduler.Cpu.Run | cse4070-operating-system/os_prj1_20191599/src/threads/thread.c:87-309 | the object follows the state machine through any run |
| Processes.InvKept | cse4070-operating-system/os_prj1_20191599/src/userprog/process.c:112-184 | every step of fork, wait and exit keeps the invariant of the two semaphores, the child list and the answers |
| Processes.EveryRunOk | cse4070-operating-system/os_prj1_20191599/src/userprog/process.c:112-184 | so it holds in every schedule |
| Processes.WaitReturnsStatus | cse4070-operating-system/os_prj1_20191599/src/userprog/process.c:112-152 | a wait that found its child returned the status the child stored, for good; any other wait returned -1 |
| Processes.StatusReturned | cse4070-operating-system/os_prj1_20191599/src/userprog/process.c:112-152 | whatever the schedule, a wait for a child returns the value the child passed to exit, the last one if it got there twice |
| Processes.SecondWaitFails | cse4070-operating-system/os_prj1_20191599/src/userprog/process.c:112-152 | once a child's status has been returned every further wait for it returns -1 |
| Processes.EachAnsweredOnce | cse4070-operating-system/os_prj1_20191599/src/userprog/process.c:112-152 | no child's status is returned twice |
| Processes.FreedOnlyAfterAnswer | cse4070-operating-system/os_prj1_20191599/src/userprog/process.c:154-184 | a thread past its last semaphore has had its status returned, is on no child list and nobody deals with it any more, so its page can go |
| Processes.NobodySleepsTooLong | cse4070-operating-system/os_prj1_20191599/src/userprog/process.c:112-184 | a parent sleeps only while its child is alive and a child only while its parent has not answered; a woken thread finds its semaphore up |
| Processes.WaitPassesExactlyIfTold | cse4070-operating-system/os_prj1_20191599/src/userprog/process.c:131-141 | a waiting thread gets past its child's semaphore exactly if the child is on its way out, and else sleeps there alone |
| Processes.ExitPassesExactlyIfAnswered | cse4070-operating-system/os_prj1_20191599/src/userprog/process.c:154-185 | an exiting thread gets past its last semaphore exactly if its status has been returned, and else sleeps there |
| Processes.OnlyFirstIsOwnParent | cse4070-operating-system/os_prj1_20191599/src/threads/thread.c:438-468 | in every reachable state a thread is its own parent exactly if it is the first |
| Processes.SelfWaitRefused | cse4070-operating-system/os_prj1_20191599/src/userprog/process.c:112-152 | in every reachable state a wait of a thread for itself is refused with -1 exactly if it is not the first |
| Processes.SelfWaitNeverReturns | cse4070-operating-system/os_prj1_20191599/src/userprog/process.c:112-152 | the first thread's wait for itself, once begun in any schedule, never ends |
| Processes.MinusOneExactly | cse4070-operating-system/os_prj1_20191599/src/userprog/process.c:112-152 | a wait returned -1 exactly if it found no child or the child stored -1 |
| Processes.KilledChildReturnsZero | cse4070-operating-system/os_prj1_20191599/src/userprog/exception.c:70-109 | the wait for a child that never stored a status, as one that kill ended, returns 0 |
| Processes.KilledChild | cse4070-operating-system/os_prj1_20191599/src/userprog/exception.c:70-109 | a schedule in which that happens |
| ProcessTable.Thread.constructor | cse4070-operating-system/os_prj1_20191599/src/threads/thread.c:438-468 | a new thread page: both semaphores 0, no children |
| ProcessTable.Kernel.Fork | cse4070-operating-system/os_prj1_20191599/src/threads/thread.c:438-468 | a new thread with a new tid, last on its creator's child list: the thread objects change exactly as that step, and stay valid and apart |
| ProcessTable.Kernel.CallWait | cse4070-operating-system/os_prj1_20191599/src/userprog/process.c:122-140 | the search of the child list: a wait begins, or -1 at once: the thread objects change exactly as that step, and stay valid and apart |
| ProcessTable.Kernel.DownChild | cse4070-operating-system/os_prj1_20191599/src/userprog/process.c:140-146 | sema_down on the child's semaphore: the thread objects change exactly as that step, and stay valid and apart |
| ProcessTable.Kernel.ReadStatus | cse4070-operating-system/os_prj1_20191599/src/userprog/process.c:140-146 | the status is read after the child told it: the thread objects change exactly as that step, and stay valid and apart |
| ProcessTable.Kernel.RemoveChild | cse4070-operating-system/os_prj1_20191599/src/userprog/process.c:140-150 | list_remove: the thread objects change exactly as that step, and stay valid and apart |
| ProcessTable.Kernel.WakeChild | cse4070-operating-system/os_prj1_20191599/src/userprog/process.c:140-152 | the child may go, and the wait returns: the thread objects change exactly as that step, and stay valid and apart |
| ProcessTable.Kernel.TellParent | cse4070-operating-system/os_prj1_20191599/src/userprog/process.c:154-184 | the exiting thread tells its parent, waking it if it waits: the thread objects change exactly as that step, and stay valid and apart |
| ProcessTable.Kernel.AwaitParent | cse4070-operating-system/os_prj1_20191599/src/userprog/process.c:154-184 | and waits to be let go: the thread objects change exactly as that step, and stay valid and apart |
| ProcessTable.Kernel.Reap | cse4070-operating-system/os_prj1_20191599/src/threads/thread.c:497-540 | the page is given back: the thread objects change exactly as that step, and stay valid and apart |
| ProcessTable.Kernel.Run | cse4070-operating-system/os_prj1_20191599/src/userprog/process.c:112-184 | the thread objects follow the state machine through any schedule |
| PageTables.AddressParts | cse4070-operating-system/os_prj1_20191599/src/threads/pte.h:18-39 | directory index, table index and offset make up the address |
| PageTables.SamePage | cse4070-operating-system/os_prj1_20191599/src/threads/pte.h:30-39 | two addresses have the same indices exactly if they lie in one page |
| PageTables.EntryRoundTrip | cse4070-operating-system/os_prj1_20191599/src/threads/pte.h:67-104 | an entry made for a page gives back the page, its writability and its flags, and is open to user code |
| PageTables.PageParts | cse4070-operating-system/os_prj1_20191599/src/threads/vaddr.h:23-41 | the page of an address and the offset in it make up the address |
| PageTables.PokedEntry | cse4070-operating-system/os_prj1_20191599/src/userprog/pagedir.c:99-119 | storing an entry changes what is found for the addresses of that page and no other |
| PageTables.TableAddedEntry | cse4070-operating-system/os_prj1_20191599/src/userprog/pagedir.c:57-86 | a new page table maps nothing |
| Mmu.WalkIsView | cse4070-operating-system/os_prj1_20191599/src/threads/pte.h:60-107 | the processor, which asks for the present and user bits at both levels and for a write also for both write bits, reaches for user code just what the map says: the byte that far into the frame of a mapped page, for a write only if the page is writable, and else it faults |
| Mmu.FlagsTell | cse4070-operating-system/os_prj1_20191599/src/threads/pte.h:60-69 | the marks the processor leaves in an entry are the accessed and dirty flags, and change no mapping |
| PageDir.Memory.Create | cse4070-operating-system/os_prj1_20191599/src/userprog/pagedir.c:12-23 | a new directory maps no user page and has no table; null, exactly if the kernel pool has no free page, leaves memory as it was |
| PageDir.Memory.LookupPage | cse4070-operating-system/os_prj1_20191599/src/userprog/pagedir.c:50-86 | finds the entry of the address; creating a table changes no mapping of this or another directory |
| PageDir.Memory.SetPage | cse4070-operating-system/os_prj1_20191599/src/userprog/pagedir.c:88-119 | the map gets exactly that page with its frame and writability, for at most one kernel page, which a missing table takes, and user code then reaches that frame, for writing exactly if writable, and everything else as before; or it is unchanged, exactly if a table is needed and the kernel pool has no free page |
| PageDir.Memory.GetPageFor | cse4070-operating-system/os_prj1_20191599/src/userprog/pagedir.c:121-137 | the frame mapped for the page plus the offset in it, or null if the page is not mapped |
| PageDir.Memory.ClearPage | cse4070-operating-system/os_prj1_20191599/src/userprog/pagedir.c:139-157 | the map loses exactly that page, where every access by user code then faults and no other access is different; the flags of its entry stay |
| PageDir.Memory.IsDirty | cse4070-operating-system/os_prj1_20191599/src/userprog/pagedir.c:159-168 | the dirty bit of the entry, false without one |
| PageDir.Memory.SetDirty | cse4070-operating-system/os_prj1_20191599/src/userprog/pagedir.c:170-186 | the dirty bit is as asked, and the map and the other flag stay |
| PageDir.Memory.IsAccessed | cse4070-operating-system/os_prj1_20191599/src/userprog/pagedir.c:188-197 | the accessed bit of the entry, false without one |
| PageDir.Memory.SetAccessed | cse4070-operating-system/os_prj1_20191599/src/userprog/pagedir.c:199-215 | the accessed bit is as asked, and the map and the other flag stay |
| PageDir.Memory.Destroy | cse4070-operating-system/os_prj1_20191599/src/userprog/pagedir.c:25-48 | what is released is, entry by entry, the frames a table still maps and the table, then the directory, all of it free afterwards, and nothing else in memory changes; a null directory releases nothing |
| PageDir.DestroyReleasesOnce | cse4070-operating-system/os_prj1_20191599/src/userprog/pagedir.c:25-48 | with frames mapped once and apart from tables that is the directory, every table and every frame still mapped, each exactly once |
| PageDir.MapsInView | cse4070-operating-system/os_prj1_20191599/src/userprog/pagedir.c:25-48 | walking the tables meets exactly the pages of the map |
| Executable.EhdrFields | cse4070-operating-system/os_prj1_20191599/src/userprog/process.c:214-232 | each field of the file header that load looks at is read from its place in the 52 bytes |
| Executable.PhdrFields | cse4070-operating-system/os_prj1_20191599/src/userprog/process.c:234-247 | each field of a program header is read from its place in the 32 bytes |
| Executable.GoodEhdrExactly | cse4070-operating-system/os_prj1_20191599/src/userprog/process.c:323-327 | the file headers that load accepts, byte by byte |
| Executable.HeaderExactly | cse4070-operating-system/os_prj1_20191599/src/userprog/process.c:342-385 | loading goes on with a program header exactly unless its type is 2, 3 or 5, or 1 and validate_segment refuses it, and it loads a segment exactly for type 1; the type is its first four bytes |
| Executable.ValidExactly | cse4070-operating-system/os_prj1_20191599/src/userprog/process.c:455-498 | the 32-bit checks of validate_segment let through exactly the segments that, in plain numbers, lie in user memory above page 0, begin at the same offset of a page as in the file, begin in the file, and have a file part no longer than themselves |
| Executable.ValidIsLoadable | cse4070-operating-system/os_prj1_20191599/src/userprog/process.c:455-498 | a program header that validate_segment accepts comes to a segment whose 32-bit sums do not wrap, that meets what load_segment and pagedir_set_page assert, lies in user memory above page 0 and is just the pages of its memory, file part and rest where the header says |
| Executable.SegmentsLoadable | cse4070-operating-system/os_prj1_20191599/src/userprog/process.c:329-385 | so do all segments of the headers read so far |
| Executable.PageContent | cse4070-operating-system/os_prj1_20191599/src/userprog/process.c:525-543 | the bytes read and the bytes zeroed make up that page of the segment |
| Loader.FileRead | cse4070-operating-system/os_prj1_20191599/src/filesys/inode.c:197-250 | a read of the executable gives the bytes from the position on, as many as were asked for and are there, or fewer if the request for a bounce buffer is made and refused |
| Loader.AddressSpace.InstallPage | cse4070-operating-system/os_prj1_20191599/src/userprog/process.c:579-596 | the map gets the page exactly if it was not mapped and a table for it is there or can be had; otherwise nothing is different |
| Loader.AddressSpace.LoadPage | cse4070-operating-system/os_prj1_20191599/src/userprog/process.c:523-555 | a page is new with the bytes of the file and zeros, for a user page and a kernel page if its table was missing, or nothing is different; without a refused request it succeeds exactly if the file has the bytes and the page fits |
| Loader.AddressSpace.LoadSegment | cse4070-operating-system/os_prj1_20191599/src/userprog/process.c:500-557 | without a refused request all pages of the segment are mapped with the file's bytes and then zeros exactly if the file has the bytes and the pages fit; in any case the pages so far are all that is new, and none is lost |
| Loader.AddressSpace.SetupStack | cse4070-operating-system/os_prj1_20191599/src/userprog/process.c:559-577 | a zeroed writable page at the top of user memory, exactly if it fits; otherwise nothing is different |
| Loader.AddressSpace.LoadSegments | cse4070-operating-system/os_prj1_20191599/src/userprog/process.c:329-385 | the headers are taken one after the other up to the first that is bad or whose segment cannot be loaded; without a refused request all are loaded exactly if every header is good, the file holds every segment and their pages fit |
| Loader.AddressSpace.Load | cse4070-operating-system/os_prj1_20191599/src/userprog/process.c:322-448 | without a refused request the load succeeds exactly if the headers pass every check, the file holds every segment, no page is mapped or comes up twice and both pools have the pages; then memory is what the headers say, the entry point is the header's and nothing else is mapped; every address of a segment and of the stack page can be read by user code, and written exactly if its header says so, and finds its byte there |
| Loader.AddressSpace.Destroy | cse4070-operating-system/os_prj1_20191599/src/userprog/pagedir.c:25-48 | whatever was loaded, the directory, its tables and every frame in use are given back once each, and the rest of memory is as it was |
| Loader.Execute | cse4070-operating-system/os_prj1_20191599/src/userprog/process.c:68-110 | a process that cannot be loaded leaves both memory pools and all page tables as they were; without a refused request it is loaded exactly if the kernel pool has a page for its directory and the rest meets the condition of Load; user code then finds the program at its addresses, and faults at every user address outside the pages of segments and stack |
| Loader.LoadedIsMemory | cse4070-operating-system/os_prj1_20191599/src/userprog/process.c:347-380 | once its pages are in place every address of a segment holds the byte of the file that its header promises, or zero past the file part |
| Loader.MemoryIsSeen | cse4070-operating-system/os_prj1_20191599/src/userprog/process.c:329-448 | what is in memory by the map is what user code finds through the page tables, byte by byte |
| UserMemory.ByteFound | cse4070-operating-system/os_prj1_20191599/src/userprog/pagedir.c:88-119 | user code finds a byte at an address exactly as the map and the frame have it, for writing if the page is writable |
| UserMemory.NothingFound | cse4070-operating-system/os_prj1_20191599/src/userprog/pagedir.c:139-157 | user code faults at an address whose page is not mapped |
| Loader.FitsInNewSpace | cse4070-operating-system/os_prj1_20191599/src/userprog/process.c:322-391 | in a new address space the pages of a program fit exactly if none comes up twice, the stack page included, and the pools have a page for each and for each page table they need |
| Loader.FitsMore | cse4070-operating-system/os_prj1_20191599/src/userprog/process.c:500-557 | pages fit after others have been added exactly if they fit together with them |
| Loader.GrownMore | cse4070-operating-system/os_prj1_20191599/src/userprog/process.c:500-557 | what is mapped, the tables and both pools stay in balance from load to load: a user page for each page and a kernel page for each new table |
| Tokens.SpansAreTokens | cse4070-operating-system/os_prj1_20191599/src/lib/string.c:201-275 | the tokens found from a boundary on are exactly the maximal runs without a delimiter |
| Tokens.SpansInOrder | cse4070-operating-system/os_prj1_20191599/src/lib/string.c:201-275 | in order and not touching |
| Tokens.StrtokR | cse4070-operating-system/os_prj1_20191599/src/lib/string.c:201-275 | one call returns the next token, ends it with a null and saves the place after it, or returns null at the end |
| ArgStack.CopyLine | cse4070-operating-system/os_prj1_20191599/src/lib/string.c:326-343 | the copy is the command line and its null |
| ArgStack.Tokenize | cse4070-operating-system/os_prj1_20191599/src/userprog/process.c:297-308 | the pointers are the starts of all tokens of the line, in order, each ended by a null in the copy |
| ArgStack.WordsAreRuns | cse4070-operating-system/os_prj1_20191599/src/userprog/process.c:297-308 | the tokens of a command line are its longest runs of bytes other than spaces, in order |
| ArgStack.SpansFit | cse4070-operating-system/os_prj1_20191599/src/userprog/process.c:403-435 | the strings of a line take no more room than the line and its null |
| ArgStack.PlacesUp | cse4070-operating-system/os_prj1_20191599/src/userprog/process.c:403-411 | the strings lie one above the other at the top of the page |
| ArgStack.UserStack.constructor | cse4070-operating-system/os_prj1_20191599/src/userprog/process.c:559-577 | a zeroed page with the pointer past its end |
| ArgStack.UserStack.PushStrings | cse4070-operating-system/os_prj1_20191599/src/userprog/process.c:403-411 | every token is on the stack with its null, at the address noted for it |
| ArgStack.UserStack.PushAddresses | cse4070-operating-system/os_prj1_20191599/src/userprog/process.c:418-427 | a null, and below it the addresses of the strings in order |
| ArgStack.UserStack.Build | cse4070-operating-system/os_prj1_20191599/src/userprog/process.c:297-435 | for every line under 100 bytes with a token: esp is 4-aligned in the page, at it a null return address, argc, argv = esp + 12, argv[i] pointing to a copy of the i-th token, argv[argc] null |
| Sorting.DoSwap | cse4070-operating-system/os_prj1_20191599/src/lib/stdlib.c:64-79 | the two elements change places byte by byte and no other byte changes |
| Sorting.FloatDown | cse4070-operating-system/os_prj1_20191599/src/lib/stdlib.c:93-123 | swapping with the greater child moves the only fault of the heap down |
| Sorting.RootIsMax | cse4070-operating-system/os_prj1_20191599/src/lib/stdlib.c:93-123 | the root of a heap is its greatest element |
| Sorting.RootSettles | cse4070-operating-system/os_prj1_20191599/src/lib/stdlib.c:144-151 | moving the root to the end puts the greatest remaining element in its place |
| Sorting.Heapify | cse4070-operating-system/os_prj1_20191599/src/lib/stdlib.c:93-123 | a heap below an element becomes a heap with it; elements are only rearranged |
| Sorting.Sort | cse4070-operating-system/os_prj1_20191599/src/lib/stdlib.c:125-152 | for every element size and total preorder the array is in order and a permutation of its elements; bytes past the array are untouched |
| Sorting.BinarySearch | cse4070-operating-system/os_prj1_20191599/src/lib/stdlib.c:172-207 | where the key comes after the first elements, ties with the next and comes before the rest, a match is returned exactly if there is one; the key need not be an element |
| Sorting.SortedIsOrdered | cse4070-operating-system/os_prj1_20191599/src/lib/stdlib.c:172-207 | that is so on an array sorted by the same comparison |
| Printf.Atoi | cse4070-operating-system/os_prj1_20191599/src/lib/stdlib.c:7-41 | the number after spaces and a sign, for every text whose number is an int, the least one included |
| Printf.ParseConversion | cse4070-operating-system/os_prj1_20191599/src/lib/stdio.c:338-460 | flags, width, precision and type of a conversion, with a negative * width read as the - flag |
| Printf.SpelledIsParsed | cse4070-operating-system/os_prj1_20191599/src/lib/stdio.c:338-460 | parsing a conversion gives back the flags, width, precision and type it was written from, each left out, as * or in digits |
| Printf.FetchedFits | cse4070-operating-system/os_prj1_20191599/src/lib/stdio.c:189-224 | the argument is cut to its type: within it, and off by a multiple of its number of values |
| Printf.PlacesFit | cse4070-operating-system/os_prj1_20191599/src/lib/stdio.c:462-547 | a value below 8^n has at most 2 n places with their commas: 44 for 64 bits, within the buffer of 64 bytes |
| Printf.Accumulate | cse4070-operating-system/os_prj1_20191599/src/lib/stdio.c:500-521 | the digits with commas and the zeros of the precision, within the 64-byte buffer |
| Printf.FormatInteger | cse4070-operating-system/os_prj1_20191599/src/lib/stdio.c:462-547 | what goes out is padding, sign, prefix, digits and padding of the conversion |
| Printf.SignCharacter | cse4070-operating-system/os_prj1_20191599/src/lib/stdio.c:483-496 | the sign is - exactly for a negative value of a signed conversion, else + exactly with the + flag, a space exactly with the space flag alone, else none |
| Printf.Classes | cse4070-operating-system/os_prj1_20191599/src/lib/ctype.h:7-15 | digits and white space are just the characters that isdigit and isspace list |
| Printf.Sink.Put | cse4070-operating-system/os_prj1_20191599/src/lib/stdio.c:44-52 | every character counts, those that fit are stored and the text stays null-terminated |
| Printf.SnprintfInt | cse4070-operating-system/os_prj1_20191599/src/lib/stdio.c:24-72 | the buffer gets the text of the conversion parsed, cut to its size; the text reads back as the argument cut to its type, and is as wide as asked unless it pads twice |
| Printf.BothFlags | cse4070-operating-system/os_prj1_20191599/src/lib/stdio.c:338-460 | - and 0 are both in force exactly after a 0 flag without -, a negative * width and no precision |
| Printf.PrintedReadsBack | cse4070-operating-system/os_prj1_20191599/src/lib/stdio.c:462-547 | atoi of the text of any signed decimal conversion without grouping is the number |
| Printf.PrintedLength | cse4070-operating-system/os_prj1_20191599/src/lib/stdio.c:523-546 | the text is as long as the greater of width and bare text exactly if not both - and 0 are in force on a width that pads; then the padding comes twice |
| Printf.PadsTwice | cse4070-operating-system/os_prj1_20191599/src/lib/stdio.c:523-546 | "%0*d" with -3 prints 7 as 00, 7 and two spaces |
| Ustar.StripAntisocialPrefixes | cse4070-operating-system/os_prj1_20191599/src/lib/ustar.c:56-73 | the loop computes the stripped name |
| Ustar.StripIdempotent | cse4070-operating-system/os_prj1_20191599/src/lib/ustar.c:56-73 | a stripped name has no antisocial prefix, is not empty and is not changed by stripping again |
| Ustar.StripDropsPrefix | cse4070-operating-system/os_prj1_20191599/src/lib/ustar.c:56-73 | every leading /, ./ and ../ goes, and a name without one stays as it is, but for the empty one and .., which become . |
| Ustar.OctalIsPrinted | cse4070-operating-system/os_prj1_20191599/src/lib/ustar.c:83-118 | a field written by the "%0*o" of printf has the octal digits of the value |
| Ustar.OctalRoundTrip | cse4070-operating-system/os_prj1_20191599/src/lib/ustar.c:120-162 | parsing a field gives back the value written into it |
| Ustar.ParsesExactly | cse4070-operating-system/os_prj1_20191599/src/lib/ustar.c:120-162 | a field parses to the value of its leading octal digits exactly if there are some, a space or null follows and the value has 32 bits |
| Ustar.ParseOctalField | cse4070-operating-system/os_prj1_20191599/src/lib/ustar.c:120-162 | the loop parses as specified, never past 32 bits |
| Ustar.CalculateChksum | cse4070-operating-system/os_prj1_20191599/src/lib/ustar.c:36-54 | the sum of all bytes, those of the checksum field counting as spaces |
| Ustar.UstarMakeHeader | cse4070-operating-system/os_prj1_20191599/src/lib/ustar.c:75-118 | a header for exactly the names whose stripped form has at most 99 bytes; otherwise the buffer is untouched |
| Ustar.UstarParseHeader | cse4070-operating-system/os_prj1_20191599/src/lib/ustar.c:175-227 | the checks are made in order and the first failure is the one reported |
| Ustar.ChecksumRoundTrip | cse4070-operating-system/os_prj1_20191599/src/lib/ustar.c:75-118 | the checksum in a finished header is that of the header |
| Ustar.RoundTrip | cse4070-operating-system/os_prj1_20191599/src/lib/ustar.c:75-227 | parsing a made header gives back the stripped name, the type and the size, 0 for a directory; a negative size is refused |
| Ustar.AttributesBack | cse4070-operating-system/os_prj1_20191599/src/lib/ustar.c:93-110 | parsing the other fields of a made header gives mode 0644 or 0755 by the type, owner and group 0 and root, and the fixed time |
| Ustar.OneByteIsNoticed | cse4070-operating-system/os_prj1_20191599/src/lib/ustar.c:175-227 | no header that parses still does after one byte outside the checksum field has changed |
| Ustar.ParsedNameIsSafe | cse4070-operating-system/os_prj1_20191599/src/lib/ustar.c:56-73 | a parsed name never begins with /, ./ or ../ and is not empty |
| Rio.Rio.Refill | cse4100-multicore-programming/project2/prj2_srcs_modified/csapp.c:795-806 | interrupted and short reads lose nothing; 0 only at end of file |
| Rio.Rio.Read | cse4100-multicore-programming/project2/prj2_srcs_modified/csapp.c:791-816 | delivers the next bytes in order, at least one unless the stream is at its end |
| Rio.Rio.ReadNb | cse4100-multicore-programming/project2/prj2_srcs_modified/csapp.c:834-851 | the next n bytes, fewer only at end of file |
| Rio.LineLength | cse4100-multicore-programming/project2/prj2_srcs_modified/csapp.c:856-880 | a line ends after its first newline, at maxlen - 1 bytes or at the end of the stream |
| Rio.LineEnds | cse4100-multicore-programming/project2/prj2_srcs_modified/csapp.c:856-880 | and nowhere else |
| Rio.Rio.ReadLineB | cse4100-multicore-programming/project2/prj2_srcs_modified/csapp.c:856-880 | the next line, whole, with a null after it; nothing beyond it is consumed |
| Rio.Rio.Run | cse4100-multicore-programming/project2/prj2_srcs_modified/csapp.c:791-880 | every call of any run delivers just the bytes due to it, however the stream is cut into pieces; delivered and undelivered bytes together are all of it |
| Rio.LinesRead | cse4100-multicore-programming/project2/prj2_srcs_modified/csapp.c:856-880 | reading lines with room enough takes a stream apart at its newlines |
| AdditionChain.Frontier | cse4152-advanced-software-engineering-practice-I/HW01/CSE4152_20191599_HW01_1.cpp:40-53 | every chain is in the pool or grows out of a node not yet taken up |
| AdditionChain.Room | cse4152-advanced-software-engineering-practice-I/HW01/CSE4152_20191599_HW01_1.cpp:40-53 | the nodes of a level number a factorial, so the pool's use follows from the level |
| AdditionChain.Pool.Expand | cse4152-advanced-software-engineering-practice-I/HW01/CSE4152_20191599_HW01_1.cpp:46-52 | a node gets exactly the children its chain allows, or the pool is too small for the next level |
| AdditionChain.Pool.Trace | cse4152-advanced-software-engineering-practice-I/HW01/CSE4152_20191599_HW01_1.cpp:55-68 | the links give back the node's whole chain and its length less one |
| AdditionChain.TakenUpIsShortest | cse4152-advanced-software-engineering-practice-I/HW01/CSE4152_20191599_HW01_1.cpp:40-53 | the first node with the target has a shortest chain to it, whatever the size of the pool |
| AdditionChain.EveryTargetTakenUp | cse4152-advanced-software-engineering-practice-I/HW01/CSE4152_20191599_HW01_1.cpp:26-70 | every positive target is some node's |
| AdditionChain.Search | cse4152-advanced-software-engineering-practice-I/HW01/CSE4152_20191599_HW01_1.cpp:26-70 | the search ends with a shortest chain exactly if the pool holds the nodes created before the target's is taken up |
| AdditionChain.CountingUp | cse4152-advanced-software-engineering-practice-I/HW01/CSE4152_20191599_HW01_1.cpp:26-70 | every positive target has a chain, so a large enough pool suffices |
| AdditionChain.PoolOfSource | cse4152-advanced-software-engineering-practice-I/HW01/CSE4152_20191599_HW01_1.cpp:15-16 | 100000 nodes are enough exactly if the target's node is among the first 11889 |
| AdditionChain.ShortChainFits | cse4152-advanced-software-engineering-practice-I/HW01/CSE4152_20191599_HW01_1.cpp:15-70 | they are for every target with a chain of eight terms |
| AdditionChain.LargeTargetOverruns | cse4152-advanced-software-engineering-practice-I/HW01/CSE4152_20191599_HW01_1.cpp:15-70 | and for no target above 256 |
| AdditionChain.SearchOfSource | cse4152-advanced-software-engineering-practice-I/HW01/CSE4152_20191599_HW01_1.cpp:15-70 | so the program's search overruns its pool for every target above 256 |
| StackSort.PatternNotSortable | cse4152-advanced-software-engineering-practice-I/HW04/CSE4152_20191599_HW04_0.cpp:15-36 | a 2-3-1 pattern defeats every way of using the stack |
| StackSort.TooLate | cse4152-advanced-software-engineering-practice-I/HW04/CSE4152_20191599_HW04_0.cpp:28-32 | where the check gives up the pattern is there |
| StackSort.CheckPossibleCase | cse4152-advanced-software-engineering-practice-I/HW04/CSE4152_20191599_HW04_0.cpp:15-36 | true exactly if some use of one stack puts the trains in order, exactly if the input has no 2-3-1 pattern; the queue is never read empty |
| PathCount.MovesAre | cse4152-advanced-software-engineering-practice-I/HW00/CSE4152_20191599_HW00_1_0.cpp:22-23 | the twelve moves lead to the four neighbours of a cell and to the eight cells a knight could go to, each by one of them |
| PathCount.WalkCells | cse4152-advanced-software-engineering-practice-I/HW00/CSE4152_20191599_HW00_1_0.cpp:26-58 | a walk goes by its moves from cell to cell, each inside the board and no wall, and only the last one is the end |
| PathCount.WalksAreWalks | cse4152-advanced-software-engineering-practice-I/HW00/CSE4152_20191599_HW00_1_0.cpp:26-58 | the enumerated walks are exactly those of k moves over open cells that reach the end first with the last move |
| PathCount.CountIsSize | cse4152-advanced-software-engineering-practice-I/HW00/CSE4152_20191599_HW00_1_0.cpp:26-58 | the recursive count is their number |
| PathCount.Expand | cse4152-advanced-software-engineering-practice-I/HW00/CSE4152_20191599_HW00_1_0.cpp:44-54 | replacing a coordinate by its open neighbours keeps the count still due and lowers the weight of the stack |
| PathCount.CountPossiblePath | cse4152-advanced-software-engineering-practice-I/HW00/CSE4152_20191599_HW00_1_0.cpp:26-58 | the search with an explicit stack ends and returns that number |

## Left out

- FileSystem.FileSys.Create: the leaked data extent is counted, not recovered, since the code does not recover it; so sectors marked without an owner are allowed.
- FileRuns.Run: one call at a time on a mounted file system without open handles; interleavings inside the file system and crashes are not modelled.
- FileSystem.Format: mounting an existing image, closing the free map and `dir_readdir`, `file_seek` and `file_tell` are not modelled.
- FileRuns.Perform: the exact number of requests for memory is stated where none is refused; after a refusal only the most a call makes.
- FileSystem.FileSys.InodeCreate: for sizes within 511 of 2^31 the sum in `bytes_to_sectors` overflows an int, which C leaves undefined; the model takes the quotient.
- FileSystem.FileSys.Write: handles on the two system files are not written by users.
- Malloc.Heap.Calloc: where clearing the block would run past it the model stops and says so.
- Malloc.Heap.Realloc: where the copy would run past the new block the model stops, with both blocks in use.
- Malloc.Run: the locks of the descriptors, and the words of list links and arena headers inside pages, are not modelled as memory; link and count changes are.
- Malloc.Heap.Valid: which pages belong to somebody else stays as it was when the heap came into being; other users of the pool taking pages meanwhile is not modelled.
- Malloc.Heap.PallocGet: one pool of pages; the split of memory into a kernel and a user pool is in PageDir; PAL_ASSERT and PAL_ZERO belong to callers here.
- Semaphores.SemaRunOk: values do not wrap at 2^32.
- Monitors.EveryRunOk: one lock and one condition variable; a thread that is in `cond_wait` uses the lock it was given.
- Scheduler.EveryRunOk: priorities (which this scheduler ignores), statistics and the switch of stacks are not modelled; tids do not wrap.
- Processes.EveryRunOk: freeing the page directory in `process_exit` is in Loader, and exec's own synchronisation is not modelled.
- PageDir.Memory.IsDirty: a kernel address may be looked up, here and in the other flag operations, where its directory entry is empty or points to a table apart from those for user addresses; what the kernel half maps is not modelled.
- PageDir.Memory.ClearPage: reloading CR3 and the TLB are not modelled.
- Loader.AddressSpace.Load: opening and closing the executable are in FileSystem, and the command line in ArgStack; here a file is its bytes, shorter than 2^31, and `FileRead` and `FileSys.Read` meet the same predicate `ReadGives`. Activating the page directory and printing are not modelled.
- Loader.Execute: the thread's own page and the copy of the command line are not modelled.
- ArgStack.UserStack.Build: a line without a token is excluded, as `load` then uses a pointer it never set; opening the executable is in FileSystem.
- Sorting.Sort: the auxiliary argument of the comparison and `qsort`'s wrapper for it are not modelled.
- Printf.ParseConversion: widths or precisions beyond an int are not modelled.
- Printf.SnprintfInt: the conversions other than signed integers, and the loop of `__vprintf`, are not modelled.
- Printf.Atoi: numbers that do not fit in an int are excluded, as their sum overflows in C.
- Ustar.UstarParseHeader: the strings for error messages are constructors of a datatype.
- PathCount.CountPossiblePath: the count does not wrap at 2^63.
- AdditionChain.Search: sums do not wrap at 2^31.
- Devices, interrupt controllers, assembly for switching and entry, networking, timing code and the remaining homework are not modelled.
