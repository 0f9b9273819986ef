# A model of the tapiOS kernel

This project models the parts of the tapiOS kernel whose behaviour spans many operations, and proves what
they keep over whole runs: physical frames and address spaces, the kernel heap, ext2 files and directories,
the path walk and its inode cache, open files, the process list, the program break, TCP sockets and the
Internet checksum.

Code that updates memory in place is modelled by classes, arrays and loops; each method is proved against a
function or relation on values, and the theorems are about those. Structures linked by C pointers (inodes,
processes, open files, sockets) live in tables of records indexed by pointer values, so that aliasing and
every link update are explicit. `PANIC()` is an outcome (`Panic`, `Halt`, `halted`) after which nothing is
claimed. Modules:

| file | content |
|---|---|
| `Basics.dfy` | shared types |
| `Pmm.dfy` | frame bitmap, bit by bit, and its bit-scan allocator |
| `Paging.dfy`, `Vmm.dfy` | two-level page tables in physical memory, edited through the recursive window |
| `Cloning.dfy`, `Fork.dfy` | directory cloning; isolation of one fork |
| `Isolation.dfy`, `Setup.dfy` | kernel-half coherence and isolation of processes over every run; the boot up to the first of them |
| `Access.dfy` | what user mode can reach: the access flags of tables over every run |
| `Heap.dfy`, `Kmalloc.dfy` | the block table as values and over runs; `kmalloc` and `kfree` on top of the address spaces |
| `Ext2Read.dfy`, `Ext2Dir.dfy` | reading through all levels of indirection; directory records byte by byte |
| `Volumes.dfy` | an ext2 image seen as a map from directories and names to inodes, and what insertions do to that map |
| `Paths.dfy`, `Vfs.dfy`, `VfsOps.dfy` | `strtok`, `dirname`, `basename`; the cached walk over an image and mounted devices against an uncached one; mounting, creating, opening |
| `Descriptors.dfy` | reference counts of open files against descriptor slots |
| `Scheduler.dfy` | process list, reaping, round robin |
| `Break.dfy` | program loading and `_sbrk` |
| `Processes.dfy` | the parts together: directories as pages of the heap, from the first one on, and what loading, `_sbrk`, switching and releasing keep |
| `Sockets.dfy`, `SocketFate.dfy` | the two-owner socket lifetime as a state machine; which sockets can still be freed |
| `Connections.dfy` | what frames make of a connection, state by state; a whole connection |
| `Tcp.dfy` | the code that performs the steps of that state machine |
| `Checksum.dfy` | the single-fold checksum against section 1 of RFC 1071 |

## Where the code does less than it seems to promise

Each of these is a theorem with the exact condition, both directions.

- `kalloc_page_frame` returns a frame that was free exactly when the first or the last frame of the chosen
  bitmap word was free (`Pmm.AllocFreshIff`); freeing any other frame of a full word makes it return a frame
  in use over and over (`Pmm.AllocRepeats`). On runs without frees every frame is returned once
  (`Pmm.AllocRun`).
- `read_blocks` is right for every file exactly when it delivers nothing or starts at a block boundary no
  further than block 12 (`Ext2Read.ReadRightIff`).
- `do_insert` stays inside its block exactly when the last record has room for header, name and terminator
  (`Ext2Dir.InsertInsideIff`).
- `dirname` drops the last component exactly when there is a slash in the path and it does not end in two
  (`Paths.DirnameDropsLastIff`); of a relative path it is relative exactly unless the only slash ends the path
  (`Paths.DirnameRelativeIff`). `basename` is the last component exactly when the path does not end in a slash
  (`Paths.BasenameIsLastIff`).
- `_open` with O_CREAT finds the root as the directory of a single name behind one or two slashes, and not behind
  more (`VfsOps.DirnameSearched`): "/a" and "//a" are created, "///a" is not.
- `reap_finished_processes` leaves no finished process behind the head exactly when no two neighbours are
  finished (`Scheduler.ReapCleanIff`).
- `tcp_remove_connection` leaves a list exactly when the removed socket is not the first of several
  (`Sockets.UnlinkedIff`): the new head is then the address of a list member, not of a socket.
- `_connect` on a socket that the program holds keeps the lifetime invariant exactly when the destination
  port is in use or the count is still 2 (`Sockets.ConnectKeepsIff`). It loses no open socket exactly when the
  port is in use, or the socket was not in the open list, or was the last one there
  (`Sockets.ConnectLosesNoneIff`): adding a socket that is further ahead cuts the list behind it.
- A closed connection frees its socket wherever that is in the list (`Sockets.ActiveCloseFrees`,
  `Sockets.PassiveCloseFrees`), but when it was the first of several the list is lost with it.
- A socket that its program has closed, and that was not left behind by an exit, is freed by some later run
  exactly when it is in the open list and either is the first there or differs from the first in peer or port
  (`SocketFate.FreedLaterIff`). A socket closed before it was ever connected keeps the network's share of its
  count for good, and so does one behind a first socket with the same peer and port: a frame that would end
  it ends the first one and the list (`SocketFate.StuckForever`).
- The single-fold checksum is exact when the two halves of the sum add up without a carry, and one too large
  otherwise (`Checksum.FoldedExactIff`, `Checksum.AcceptedIff`).

One more place where the model follows the code rather than what a caller may expect: `_dup2` answers 0
instead of the new descriptor (`Descriptors.Kernel.Dup2`).

## Model

| member | source | states |
|---|---|---|
| `Pmm.BitScanForward` | util/util.h:20-24 | the scan yields the lowest set bit, with all lower bits clear, and 0 for a zero word |
| `Pmm.OneBit` | mem/pmm.c:33-39 | changing one bit of one word changes the reservation of exactly one frame |
| `Pmm.FirstNotFull` | mem/pmm.c:63-65 | all words before the chosen one are full and it is not |
| `Pmm.AllocExhausted` | mem/pmm.c:61-73 | the search fails exactly when every frame is reserved, and then the bitmap is unchanged and the answer is 0 |
| `Pmm.AllocReservesItsAnswer` | mem/pmm.c:61-73 | otherwise the answer is page aligned, in the first word with a hole, and exactly its frame becomes reserved |
| `Pmm.AllocFreshIff` | mem/pmm.c:61-73 | the answer was free before if and only if the first or the last frame of that word was |
| `Pmm.AllocRepeats` | mem/pmm.c:61-73 | for every full word with one inner frame freed, the answer is a reserved frame and the bitmap does not change |
| `Pmm.AllocTakesNext` | mem/pmm.c:61-73 | on an initial segment of reserved frames the answer is the next frame and the segment grows by it |
| `Pmm.AllocRun` | mem/pmm.c:61-73 | every run of allocations from boot answers consecutive frames, none twice, then 0 for exhaustion |
| `Pmm.FrameAllocator.constructor` | mem/pmm.c:9-23 | after setup the reserved frames are exactly those of the kernel image |
| `Pmm.FrameAllocator.IsFreePage` | mem/pmm.c:25-31 | free exactly when the frame of the address is not in the reserved set |
| `Pmm.FrameAllocator.SetPageReserved` | mem/pmm.c:33-39 | one frame enters or leaves the reserved set, no other changes |
| `Pmm.FrameAllocator.KallocPageFrame` | mem/pmm.c:61-73 | the loop computes the bitmap and answer of the allocation function |
| `Pmm.FrameAllocator.GetAndSetMsb` | util/util.h:20-24 | sets the bit below the lowest set one, or the top bit, and reports its position from 1 |
| `Paging.WindowReachesEntry` | mem/vmm.c:31-63 | through the recursive slot, page p of the window is table p, the directory itself for the last slot, and reachable exactly when that table is present |
| `Paging.WindowAddresses` | mem/vmm.c:31-100 | the byte address that the code computes for a word of any of the three windows splits into the slot, the page and the word meant |
| `Paging.KernelPagesAgree` | mem/vmm.c:133-141 | in valid address spaces a page of the kernel half is the same in any two directories |
| `Paging.SetEntry` | mem/vmm.c:58-63 | writing one table entry changes that page, in exactly the spaces sharing the table, and keeps all invariants |
| `Paging.NewTable` | mem/vmm.c:75-86 | a new table changes no translation of any space and keeps all invariants |
| `Vmm.KallocPageFromInserts` | mem/vmm.c:201-230 | insert-if-absent on the map from pages to frames: when it inserts (both directions), frame and flags of what it inserts, and that nothing else changes |
| `Vmm.KallocPageFromAnswers` | mem/vmm.c:201-230 | NULL exactly for page 0 and for a page that is mapped, a halt exactly without a frame or for a free one; a table that is missing is entered with the access flags |
| `Vmm.KallocPageInserts` | mem/vmm.c:232-237 | an absent page is mapped to a frame that was free; a present one, page 0 and exhaustion leave every page alone |
| `Vmm.KallocPageAnswers` | mem/vmm.c:232-237 | NULL exactly for page 0 and for a page that is mapped while frames last, a halt exactly on exhaustion |
| `Vmm.AddressSpaces.constructor` | mem/vmm.c:166-173 | the boot directory maps itself |
| `Vmm.AddressSpaces.StoreWindow` | mem/vmm.c:31-100 | a store at the computed window address changes exactly the addressed word of the page that the slot shows |
| `Vmm.AddressSpaces.LoadWindow` | mem/vmm.c:40-100 | a load at the computed window address yields that word |
| `Vmm.AddressSpaces.SetPageTableEntry` | mem/vmm.c:31-38 | the store through the window changes exactly the addressed entry in physical memory |
| `Vmm.AddressSpaces.GetPageTableEntry` | mem/vmm.c:40-56 | the load through the window is the addressed entry, of a table or of the directory |
| `Vmm.AddressSpaces.NextFrame` | mem/pmm.c:61-73 | the next never-used frame, or 0 when there is none |
| `Vmm.AddressSpaces.NewPageTable` | mem/vmm.c:75-86 | a zeroed table in a fresh frame, entered with the access flags |
| `Vmm.AddressSpaces.KallocPageFrom` | mem/vmm.c:201-230 | outcome and memory are those of the specification function, for every outcome |
| `Vmm.AddressSpaces.KallocPage` | mem/vmm.c:232-237 | outcome and memory are those of the specification function, for every outcome |
| `Cloning.Layout` | mem/vmm.c:90-100 | the indices of the kernel half, the three windows and the two temporary pages are those of the addresses in the code |
| `Cloning.CopyPage` | mem/vmm.c:97-113 | one page is copied to a fresh frame and the two temporary pages are unmapped again |
| `Cloning.ClonePageTable` | mem/vmm.c:88-117 | every used entry of the source table gets its own fresh frame with the same contents; frames in use are untouched |
| `Cloning.CloneEntry` | mem/vmm.c:133-148 | the four cases of a directory entry: empty, the kernel's, copied, skipped |
| `Cloning.BorrowSlots` | mem/vmm.c:122-131 | the directory is cleared and the slots 1021 and 1022 show source and copy |
| `Cloning.GiveBackSlots` | mem/vmm.c:150-152 | both slots are given back and the new directory maps itself |
| `Cloning.TempRestored` | mem/vmm.c:99-113 | mapping and unmapping the temporary pages cancels out |
| `Cloning.SlotsRestored` | mem/vmm.c:127-151 | borrowing and giving back leaves the current directory as it was |
| `Cloning.CloneEntries` | mem/vmm.c:133-148 | the loop over the directory clones every entry, using exactly the frames counted beforehand |
| `Cloning.ClonePageDirectory` | mem/vmm.c:119-154 | the whole operation relates old and new address spaces by `Cloned`, every older frame unchanged |
| `Fork.OthersKeepTheirPages` | mem/vmm.c:119-154 | cloning changes no page of any older address space |
| `Fork.CloneKeepsValid` | mem/vmm.c:119-154 | cloning keeps self-mapping, coherence of the kernel half, and that tables are shared only there |
| `Fork.ForkIsolates` | mem/vmm.c:88-159 | every user page of the child has the contents of the parent's in a frame that was free, present, writable and open to user mode in both table and directory; unmapped stays unmapped; the parent is unchanged |
| `Fork.ChildFramesDistinct` | mem/vmm.c:88-117 | different pages of the child are in different frames |
| `Fork.ChildFrameIsPage` | mem/vmm.c:88-154 | no frame of a child page is a table of any address space |
| `Fork.WritesStayPrivate` | mem/vmm.c:88-159 | a store by the child in its user half changes no mapping anywhere and no frame in use before the fork, and the two share no user frame |
| `Fork.EmptyUserHalf` | mem/vmm.c:161-164 | without copying, the new space is the kernel half and nothing else |
| `Isolation.TidyClonable` | mem/vmm.c:119-164 | the invariant of runs gives all that cloning needs of user pages, tables and temporary pages, for every directory |
| `Isolation.CloneKeepsTidy` | mem/vmm.c:119-164 | cloning keeps it, so a child can be forked again |
| `Isolation.KallocKeeps` | mem/vmm.c:232-237 | mapping a page keeps it, and every page and user contents of every space |
| `Isolation.KallocFromKeeps` | mem/vmm.c:201-230 | so does mapping a given frame |
| `Isolation.MapsRunGentle` | mem/vmm.c:201-237 | a run of such calls for consecutive pages, of a process or of the kernel, keeps it, every page and user contents of every space, and every spare page that was not given |
| `Isolation.ReleaseKeepsTidy` | syscall/syscalls.c:73-75 | releasing a directory keeps it |
| `Isolation.StepKeeps` | mem/vmm.c:119-251 | all of these for any one step, for a store of the running process, and for switching directories |
| `Isolation.RunIsGood` | mem/vmm.c:119-251 | every state of every run meets the invariant |
| `Isolation.OnlyOwnStoresChangePages` | mem/vmm.c:119-251 | over every run, until a directory is released, what it maps stays mapped, and its user pages keep their contents as long as nothing is stored under it |
| `Isolation.KernelPagesForever` | mem/vmm.c:133-148 | a kernel page of some space is, at every later point of every run, the same page in every space there is then |
| `Isolation.ForkIsSnapshot` | task/process.c:79-131 | a child that has stored nothing yet has, after any run of all others, the pages its parent had when it forked, writable by the user |
| `Access.KernelTablesForever` | mem/vmm.c:133-148 | over every run the directory entries of the kernel half, access flags included, are those of the start in every space there is |
| `Access.UserTablesOpen` | mem/vmm.c:75-148 | over every run that maps user pages for user mode, forks included, every table of a user half is open to user mode |
| `Setup.TablesValid` | mem/vmm.c:182-185 | pre-creating the kernel tables establishes the invariants of the address spaces |
| `Setup.CreateTables` | mem/vmm.c:175-185 | the identity map is removed, tables 769 to 1022 are in consecutive fresh frames, writable and closed to user mode, and the invariants hold |
| `Setup.MapImagePage` | mem/vmm.c:190-193 | an absent image page is mapped to its frame, a present one kept |
| `Setup.MapImage` | mem/vmm.c:187-194 | after the loop every image page is present, and exactly the absent ones were added, each with its own frame and flags |
| `Setup.BootIsTidy` | mem/vmm.c:166-194 | the address spaces of the boot meet the invariant of runs |
| `Setup.BootTables` | mem/vmm.c:175-194 | the code up to there establishes it, with the kernel's tables closed to user mode |
| `Heap.Pages` | mem/kmalloc.c:80-83 | the pages cover the request with less than one page of slack |
| `Heap.LiveDisjoint` | mem/kmalloc.c:42-64 | live allocations never overlap |
| `Heap.StartsDiffer` | mem/kmalloc.c:104-119 | no two blocks start at the same address, so the block freed is unique |
| `Heap.FirstFit` | mem/kmalloc.c:45-48 | the first free block that is large enough, or none |
| `Heap.FirstServes` | mem/kmalloc.c:42-64 | the first free block that is large enough serves a request, as a whole or with its last pages, the rest staying free where the block started |
| `Heap.GrowsIff` | mem/kmalloc.c:85-101 | the heap grows, by exactly the request, if and only if no free block is large enough |
| `Heap.HaltsIff` | mem/kmalloc.c:66-120 | nothing halts but freeing what is free; an empty request and a pointer to no block change nothing |
| `Heap.TakeTiles` | mem/kmalloc.c:42-64 | serving from a free block, split or whole, keeps the blocks tiling the heap |
| `Heap.TakeLive` | mem/kmalloc.c:42-64 | and adds exactly one live allocation, of the requested pages |
| `Heap.GrowTiles` | mem/kmalloc.c:92-101 | growing keeps the tiling and adds exactly one live allocation at the end |
| `Heap.ReleaseTiles` | mem/kmalloc.c:104-119 | freeing keeps the tiling and removes exactly that allocation |
| `Heap.StepKeeps` | mem/kmalloc.c:66-120 | each call keeps the tiling, and every allocation other than the one freed |
| `Heap.RunKeeps` | mem/kmalloc.c:66-120 | over every run the blocks tile the heap and an allocation lives, in place, until it is freed |
| `Kmalloc.KernelHeap.constructor` | mem/kmalloc.c:66-78 | before the first call the heap is intact and empty |
| `Kmalloc.KernelHeap.InsertBlock` | mem/kmalloc.c:26-40 | a free block is appended exactly when the size is positive and the table has room |
| `Kmalloc.KernelHeap.FindFreeBlocks` | mem/kmalloc.c:42-64 | first fit with a split from the tail, the null answer, and the halt on a full table, each exactly when |
| `Kmalloc.KernelHeap.MapPages` | mem/kmalloc.c:92-97 | consecutive fresh pages in every address space, exactly when the frames suffice |
| `Kmalloc.KernelHeap.Grow` | mem/kmalloc.c:92-101 | the heap end advances by the request, those pages are mapped, one block is added |
| `Kmalloc.KernelHeap.Kmalloc` | mem/kmalloc.c:66-102 | null, halting and success exactly characterised; growth only when nothing fits; one new live allocation; every page present in any address space stays as it was, and the new pages are those of the answer |
| `Kmalloc.FitHaltsIff` | mem/kmalloc.c:26-64 | a fitting block of the right size serves a request even when the table is full, a larger one exactly when it is not |
| `Kmalloc.GrowthHaltsIff` | mem/kmalloc.c:26-40 | without a fitting block a request is served exactly when a record and a frame for every page are left |
| `Kmalloc.KernelHeap.Kfree` | mem/kmalloc.c:104-120 | halts exactly on a free block with that start; otherwise the live allocations lose exactly that one |
| `Ext2Read.ReadBlock` | fs/ext2.c:347-363 | bytes copied, count and new position, with and without a file |
| `Ext2Read.OneBlock` | fs/ext2.c:382-386 | reading the next block of the file extends the delivered slice by it |
| `Ext2Read.ReadIndirectBlock` | fs/ext2.c:365-375 | the blocks behind one pointer block extend the delivered slice |
| `Ext2Read.ReadDirectBlocks` | fs/ext2.c:382-386 | the direct blocks from the one of the position on |
| `Ext2Read.ReadDoublyIndirect` | fs/ext2.c:391-401 | the doubly indirect loop, with its surplus iterations over zero pointers, completes the slice |
| `Ext2Read.ReadBlocks` | fs/ext2.c:377-420 | from any position: nothing from the end of the file on, otherwise as many bytes as asked for or as there are to the end; they are the delivered slice; the position advances by them; the rest of the buffer is kept; halts exactly on a triply indirect block |
| `Ext2Read.DeliveredFrom` | fs/ext2.c:382-386 | the delivered slice starts at the block of the position, or at block 12 for positions beyond it |
| `Ext2Read.PointerStored` | fs/ext2.c:365-372 | block numbers are read with the least significant byte first |
| `Ext2Read.BehindIs` | fs/ext2.c:391-401 | the doubly indirect blocks follow the 12 direct and the singly indirect ones |
| `Ext2Read.BaseIsPos` | fs/ext2.c:382-386 | the slice starts at the position exactly at block boundaries up to block 12 |
| `Ext2Read.ReadRightIff` | fs/ext2.c:377-420 | the read is right for every file of a size if and only if nothing is delivered or the position is such a boundary |
| `Ext2Dir.LookupAppend` | fs/ext2.c:166-189 | a first-match lookup after an entry is appended |
| `Ext2Dir.RecordLayout` | fs/ext2.h:98-108 | where inode, size and name length of a record are, in the byte order of the format |
| `Ext2Dir.Search` | fs/ext2.c:159-191 | the walk finds the first entry with the name and its inode, or nothing, and ends |
| `Ext2Dir.AdvanceToLast` | fs/ext2.c:84-94 | ends at the start of the last record |
| `Ext2Dir.DirSize` | fs/ext2.c:193-204 | the least multiple of 4 with room for header and name, and at least 12 |
| `Ext2Dir.SplitAppends` | fs/ext2.c:206-220 | splitting only the last record keeps the tiling and adds one entry at the end |
| `Ext2Dir.InsertAppends` | fs/ext2.c:206-220 | when it fits, records still tile the block and the entries are the old ones and the new one |
| `Ext2Dir.InsertedRecord` | fs/ext2.c:206-220 | the new record: inode, size up to the end of the block, type 2 whatever it names, the name and its terminator |
| `Ext2Dir.InsertedFields` | fs/ext2.c:206-220 | whether it fits or not, the new size is the 16-bit difference, and the length of a name of 256 bytes or more is lost |
| `Ext2Dir.InsertIsUpdate` | fs/ext2.c:206-220 | insertion is a map update: the new name is found with its inode, every other as before |
| `Ext2Dir.InsertInsideIff` | fs/ext2.c:206-220 | nothing outside the block is written, whatever is there, if and only if it fits |
| `Ext2Dir.DoInsert` | fs/ext2.c:206-220 | the bytes of the image afterwards, all of them |
| `Ext2Dir.WriteDirectoryStructure` | fs/ext2.c:258-275 | a new block is tiled by exactly the two dot entries, the first of 12 bytes, with type -1; nothing outside changes |
| `Ext2Dir.DirectoryReader.Readdir` | fs/ext2.c:112-157 | one call refines the step of the static cursor, which stays at a record boundary or the block end |
| `Ext2Dir.OneCall` | fs/ext2.c:112-157 | call r of a pass returns entry r, the one after the last returns nothing and resets |
| `Ext2Dir.ReaddirPhases` | fs/ext2.c:112-157 | the same from any point of a pass |
| `Ext2Dir.ReaddirCycles` | fs/ext2.c:112-157 | call k from the reset state returns entry k modulo the number of entries plus one: each entry once in order, nothing, and again |
| `Volumes.InsertChanges` | fs/ext2.c:206-228 | an insertion that fits changes one block and appends one entry there |
| `Volumes.OneBlockFormatted` | fs/ext2.c:206-228 | a change in one directory block leaves all blocks tiled and apart |
| `Volumes.NameOfBytes` | fs/ext2.c:166-189 | every name without a terminator inside is one that paths can have |
| `Volumes.InsertRepresents` | fs/ext2.c:206-228 | seen as a map from directories and names to inodes, the image after an insertion is the map with one name more |
| `Volumes.NewDirectoryRepresents` | fs/ext2.c:258-321 | and after the dots are written in a free block, the map with one empty directory more |
| `Volumes.Volume.Search` | fs/ext2.c:159-191 | the search of the bytes answers what the map has, and nothing in an inode that is no directory |
| `Volumes.Volume.Insert` | fs/ext2.c:206-228 | performs the update of the map in the bytes |
| `Volumes.Volume.MakeDirectory` | fs/ext2.c:313-321 | performs the new directory in the bytes |
| `Paths.Tokenizer.Strtok` | util/util.c:161-181 | successive calls return exactly the non-empty components in order, and leave no trace when there is none left |
| `Paths.TokensAtSlash` | util/util.c:161-181 | the components of a path split at any slash |
| `Paths.StrRchr` | util/util.c:192-200 | the position of the last slash or none |
| `Paths.DirnameInPlace` | util/util.c:208-216 | the three answers, with the cut made in the buffer |
| `Paths.DirnameDropsLastIff` | util/util.c:208-216 | of any path with components all but the last, if and only if there is a slash in it and it does not end in two |
| `Paths.DirnameAbsolute` | util/util.c:208-216 | of an absolute path a front part that starts with a slash, and the root if and only if there is no slash from the third character on but one at the end |
| `Paths.DirnameRelativeIff` | util/util.c:208-216 | of a relative path a relative one, if and only if it is not so that the only slash ends the path |
| `Paths.BasenameIsLastIff` | util/util.c:202-206 | the last component, if and only if the path does not end in a slash |
| `Vfs.NamesEq` | fs/vfs.c:7-10 | zero exactly for equal names |
| `Vfs.AppendedShaped` | fs/vfs.c:45-57 | linking a new child at the end keeps every sibling list in order and names distinct |
| `Vfs.AppendedAgrees` | fs/vfs.c:43-57 | the cache still agrees with disk and devices when the new child is what the disk has, or a device below a device |
| `Vfs.Tree.AddChild` | fs/vfs.c:47-56 | the pointers after the append, all of them |
| `Vfs.Tree.FindCached` | fs/vfs.c:30-42 | the child with that name, or none has it |
| `Vfs.Tree.SearchFunc` | fs/vfs.c:27-59 | a cached child is the answer and nothing changes; otherwise a device has none, and in a directory of the disk the bytes of its block decide and what they have is cached |
| `Vfs.AppendedNoDevices` | fs/vfs.c:47-57 | caching a file lets no path enter a device that did not before |
| `Vfs.ResolveOnDisk` | fs/vfs.c:12-59 | a path that enters no device leads, through the cache and then the disk, to what the disk alone has |
| `Vfs.ResolveInDevice` | fs/vfs.c:12-59 | a path that enters one leads to a device that is cached or nowhere |
| `Vfs.Components` | fs/vfs.c:16-22 | the strtok loop yields the components of the path |
| `Vfs.WalkAll` | fs/vfs.c:19-23 | the loop ends at the node the path resolves to and keeps the cache invariants |
| `Vfs.VfsSearch` | fs/vfs.c:12-68 | a path that is cached gives the identical node and changes nothing; one that enters a device gives a cached device or none; any other gives what a search of the disk without cache has, and an answer is cached |
| `Vfs.CachedExtends` | fs/vfs.c:27-59 | what was found once stays found as the cache grows |
| `Vfs.CachedUnique` | fs/vfs.c:27-59 | a path leads to at most one cached node |
| `VfsOps.MountedList` | fs/vfs.c:194-210 | exactly one child is replaced, in place, under the old name |
| `VfsOps.MountedShaped` | fs/vfs.c:194-210 | all sibling lists stay in order |
| `VfsOps.MountedAgrees` | fs/vfs.c:194-210 | a device may stand for whatever the disk has under the name |
| `VfsOps.MountedReached` | fs/vfs.c:194-210 | every path that led to the mount point leads to what is mounted |
| `VfsOps.VfsMount` | fs/vfs.c:194-210 | halts exactly when the target has children or no parent; otherwise the replacement, after which cache, disk and devices still agree, so that searches go on |
| `VfsOps.DevfsInit` | fs/devfs.c:97-118 | one device without parent, all else as before |
| `VfsOps.DevfsMknod` | fs/devfs.c:18-44 | a new name below a device is that device's child, all else as before |
| `VfsOps.MountDevices` | kmain.c:84-92 | after the first mount "/dev" leads to devfs, exactly when the disk has that name, and searches go on |
| `VfsOps.CreatedIsFound` | syscall/syscalls.c:166-174 | a new name is found where it was created and nothing found before moves |
| `VfsOps.Parts` | syscall/syscalls.c:137-145 | directory part and name put together are the components of the path |
| `VfsOps.DirnameSearched` | fs/vfs.c:12-25 | the directory part is found where all components but the last lead, except for a single name behind three slashes or more |
| `VfsOps.VfsNewInode` | fs/vfs.c:70-93 | in a directory with room the new file, whose number is no directory's, is in the bytes of its block, found there by the byte search, and cached; nothing happens in a device |
| `VfsOps.NewDirectory` | fs/ext2.c:277-335 | the same for a new directory, with its two dots |
| `VfsOps.CreatePath` | syscall/syscalls.c:166-174 | created exactly when all components but the last lead to a directory of the disk, behind at most two slashes for a name in the root; from then on the path names the new file in the cache and on disk |
| `VfsOps.OpenPath` | syscall/syscalls.c:147-175 | every outcome of the lookup in terms of the components of the path on disk and in devices; room is asked for only where a record is inserted; what is opened is what the path names from then on, in the cache and on disk |
| `Descriptors.SlotWritten` | task/process.c:151-162 | writing a slot moves exactly one slot between files |
| `Descriptors.HeldIsPositive` | fs/vfs.c:139-143 | a held file has a positive count, so the halt in closing is never reached |
| `Descriptors.DropKeeps` | syscall/syscalls.c:181-192 | dropping a slot with its count keeps counts equal to slots |
| `Descriptors.FillKeeps` | task/process.c:45-49 | filling a slot with its count keeps counts equal to slots |
| `Descriptors.FreeKeeps` | syscall/syscalls.c:189 | a file with count zero is in no slot of any process when it is freed |
| `Descriptors.OpenKeeps` | syscall/syscalls.c:176-178 | a new file with count 1 in one slot, or in none when there was no slot |
| `Descriptors.Kernel.NewFd` | task/process.c:151-162 | the first free slot, or -1 when there is none |
| `Descriptors.Kernel.Open` | syscall/syscalls.c:175-178 | a new file with count 1 in the first free slot and all other slots as before, or in none when all are taken |
| `Descriptors.Kernel.VfsClose` | fs/vfs.c:139-175 | the count after closing; halts exactly on a zero count |
| `Descriptors.Kernel.Close` | syscall/syscalls.c:181-192 | freed exactly when the slot was the last holder in any process, with the count it has otherwise; never halts |
| `Descriptors.Kernel.Dup2` | syscall/syscalls.c:354-363 | both slots hold the file, with its new count, and it is not freed on the way; another file in the second slot is freed exactly when that was its last slot |
| `Descriptors.Kernel.DupFd` | syscall/syscalls.c:365-382 | the first free slot from the argument on gets the file, or exactly which of the three errors |
| `Descriptors.Kernel.Fork` | task/process.c:41-52 | the child has exactly the parent's slots, and the count of every file moves by as much as its slots |
| `Descriptors.Kernel.Exit` | syscall/syscalls.c:62-69 | all slots of the process are closed, no others, nothing is freed, never halts |
| `Scheduler.FairFrom` | task/scheduler.c:7-16 | the number of switches until a given process runs is at most its distance around the list |
| `Scheduler.Fair` | task/scheduler.c:7-16 | every unfinished listed process is chosen within one lap, from wherever the current one points |
| `Scheduler.SweepLiveIff` | task/scheduler.c:18-32 | what a sweep leaves is free of finished processes exactly when no two neighbours are finished |
| `Scheduler.SweepKeepsLive` | task/scheduler.c:18-32 | a sweep cuts off nothing that runs |
| `Scheduler.ReapCleanIff` | task/scheduler.c:18-32 | the same for reaping behind the head |
| `Scheduler.ReapedOne` | task/scheduler.c:18-32 | with one finished process, reaping takes out that one and no other |
| `Scheduler.AppendLast` | task/process.c:121-123 | the list with the child at its end is linked and acyclic |
| `Scheduler.ExitPoints` | syscall/syscalls.c:58-83 | a process that has been unlinked still points into the list |
| `Scheduler.Tasks.constructor` | task/multitasking.c:14-21 | one process, current and unfinished, in a list of its own |
| `Scheduler.Tasks.GetNextProcess` | task/scheduler.c:7-16 | the next unfinished process after the current one, or the head, also for a process already unlinked |
| `Scheduler.Tasks.Reap` | task/scheduler.c:18-32 | the pointer loop computes the reaped list, keeps it linked, and changes no state |
| `Scheduler.Tasks.Fork` | task/process.c:121-123 | the child is last in the list, all else as before |
| `Scheduler.Tasks.Exit` | syscall/syscalls.c:58-83 | the process is finished and out of the list unless it is the head; no other leaves |
| `Scheduler.Tasks.SwitchTask` | task/scheduler.c:34-42 | the chosen process is finished only if it is the head |
| `Scheduler.Tasks.Switches` | task/scheduler.c:34-42 | k switches in a row run exactly the processes that fairness speaks of, and with one lap or more every unfinished process of the list |
| `Break.MapNext` | syscall/syscalls.c:122-125 | exactly one page becomes present, in the next free frame |
| `Break.UserRun` | mem/vmm.c:201-237 | a run of calls for consecutive user pages maps exactly these, the first ones to the frames given and the others to distinct frames that were free, and no other page of any space changes |
| `Break.Program.constructor` | task/process.c:238-272 | loading the segment maps exactly the pages from its start to the initial break, each for the first time, the first ones to the frames of the buffer in order and the others to distinct frames that were free |
| `Break.Program.Sbrk` | syscall/syscalls.c:105-135 | halts exactly on negative requests; the old break is the answer; the new one is the next multiple of 8 behind the request; exactly the pages up to it are mapped, each for the first time, writable by the user and in distinct frames that were free; all invariants kept |
| `Break.SbrkRun` | syscall/syscalls.c:105-135 | over every run of requests all regions are mapped at the end and disjoint, and each page in between was unmapped before and is in its own frame that was free |
| `Break.BreakGrows` | syscall/syscalls.c:111-112 | over every run the break stays 8-aligned and never falls |
| `Break.RegionsDisjoint` | syscall/syscalls.c:105-135 | any two regions of a run are disjoint and below the last break |
| `Break.BssPages` | task/process.c:257-270 | the bss pages end at the page of the initial break or one before |
| `Break.LoadSegment` | task/process.c:238-270 | one run of calls from the segment start to the initial break: every page there is mapped exactly once, file pages to the frames of the buffer in order and bss pages to distinct free frames; no other page of any space changes |
| `Break.MapFile` | task/process.c:240-246 | the loop over the file is a run of calls with the frames of the buffer |
| `Break.MapBss` | task/process.c:257-270 | bss and break page continue that run up to the page of the initial break |
| `Processes.Sbrk` | syscall/syscalls.c:105-135 | moving the break keeps the invariant of runs, every page and user contents of every space, and all spare pages |
| `Processes.Load` | task/process.c:238-272 | so does loading a program, whose buffer pages are no longer spare afterwards |
| `Processes.ChildIsLoaded` | task/process.c:79-131 | a forked child has exactly the pages of its parent up to the same break, so that its own calls of `_sbrk` meet unmapped pages again |
| `Processes.KmallocTidy` | mem/kmalloc.c:66-102 | what a request answers with is no directory, no table and no user page of any space, whether the heap has just started, grows or serves a freed block; free blocks stay so, and nothing else is disturbed |
| `Processes.Kmalloc` | mem/kmalloc.c:66-102 | the same of the code, and halting exactly when the heap halts |
| `Processes.CloneSpare` | mem/vmm.c:119-154 | cloning makes no other spare page a directory, table or user page |
| `Processes.NewDirectory` | mem/vmm.c:119-154 | cloning as a whole, the request to the heap included: the directory is a fresh page of the heap, old and new spaces are related by `Cloned`, the heap stays intact and its free blocks spare |
| `Processes.ChangePdir` | mem/vmm.c:246-251 | the heap, and every page of it, is the same for the process that goes on |
| `Processes.FirstDirectory` | mem/vmm.c:196-197 | the clone of the kernel directory in a page of the heap becomes current, has an empty user half, and is where runs start |
| `Processes.ReleaseDirectory` | syscall/syscalls.c:301 | freeing the directory of an address space that is not current never halts, its page is spare again, and the heap stays intact with exactly that block free |
| `Sockets.CreateKeeps` | syscall/syscalls.c:430-446 | a new socket with count 2, owned by both sides, in no list, whatever its other fields hold, keeps the lifetime invariant |
| `Sockets.ConnectKeepsIff` | syscall/syscalls.c:474-495 | connecting any socket the program holds keeps it if and only if the port is in use or the count is 2 |
| `Sockets.ConnectLosesNoneIff` | syscall/syscalls.c:474-495 | it leaves every open socket in the list if and only if the port is in use, or the socket was not in the list, or was the last one |
| `Sockets.CloseKeeps` | syscall/syscalls.c:181-192 | closing keeps it, and frees the structure exactly when the network has dropped its share |
| `Sockets.ExitKeeps` | syscall/syscalls.c:62-69 | exiting keeps it, without freeing: what the network had dropped is left behind |
| `Sockets.ReleaseKeeps` | network/tcp.c:94-138 | the end of a connection keeps it, for any place in the list, and frees the structure exactly when the user has closed it |
| `Sockets.AdvanceKeeps` | network/tcp.c:151-195 | so does every state change of an open socket |
| `Sockets.SegmentKeeps` | network/tcp.c:140-195 | so does every frame, also one that loses the list |
| `Sockets.StepKeeps` | network/tcp.c:94-195 | so does every step of programs and network |
| `Sockets.RunKeeps` | network/tcp.c:94-195 | count equals user share plus network share, and open sockets are never disconnected, over every interleaving; frames and connections come only while there is a list, and no socket that the network has dropped is connected to a free port |
| `Sockets.FreedOnceIff` | network/socket.c:8-14 | after every such run a socket has been freed exactly once if both sides have finished, the last not by exiting, and never otherwise |
| `Sockets.UserShareIff` | syscall/syscalls.c:181-192 | in every such run the user's share lasts exactly from creation to the first close |
| `Sockets.ResetAndCloseCommute` | network/tcp.c:130-139 | a reset and a close lead to the same state in either order, for any place in the list |
| `Sockets.ConnectionEnds` | network/tcp.c:160-177 | the last frame frees the structure exactly when the user has closed, always so after an active close, and leaves a list exactly when the socket is not the first of several |
| `Sockets.ConnectionGoesOn` | network/tcp.c:154-195 | any other frame changes only the state of its socket (which one is in `Connections.FrameMoves`) |
| `Sockets.ActiveCloseFrees` | network/tcp.c:160-181 | close, acknowledgement, FIN: the last one and none before frees the socket, and the list survives if and only if the socket is not the first of several |
| `Sockets.PassiveCloseFrees` | network/tcp.c:160-195 | FIN, last acknowledgement, close: the same, the list being lost or not at the acknowledgement |
| `Sockets.UnlinkedIff` | network/tcp.c:105-121 | the list survives a removal if and only if the socket was not the first of several |
| `Sockets.LinkedThrough` | util/list.c:4-10 | the list after an addition, also of a socket that is in it already |
| `Connections.FrameMoves` | network/tcp.c:140-195 | every frame without RST in every state of the socket whose port it is for, from its peer and from others: the new state, or the end of the connection |
| `Connections.ResetMoves` | network/tcp.c:130-139 | a reset from the peer ends the connection, from others it is as if it were none |
| `Connections.NoSocketMoves` | network/tcp.c:140-149 | a frame for a port that no open socket has changes nothing |
| `Connections.ConnectAddressed` | syscall/syscalls.c:483-495 | a connected socket is last in the list with address and ports as given, and frames from there come to it exactly when no other open socket has its source port |
| `Connections.Opens` | syscall/syscalls.c:474-498 | after _connect and the SYN and ACK of the peer the socket is connected |
| `Connections.WholeConnection` | network/tcp.c:151-181 | from there through close, acknowledgement and FIN: the last frame and none before frees the structure, and the list is kept |
| `SocketFate.NetShareEnds` | network/tcp.c:94-195 | the network drops its share only on a reset, or a frame that ends a connection, from the peer of that open socket |
| `SocketFate.LeftByExit` | syscall/syscalls.c:62-69 | a socket is left behind only by an exit |
| `SocketFate.StuckForever` | network/tcp.c:94-195 | a closed socket that is not in the open list, or is behind a first one with its peer and port, is freed by no run |
| `SocketFate.FreeByResets` | network/tcp.c:127-139 | any other closed socket of the list is freed by a run of resets |
| `SocketFate.FreedLaterIff` | network/tcp.c:94-195 | a closed socket is freed by some later run if and only if it is in the open list and is the first there or has another peer or port than the first |
| `Tcp.Network.constructor` | network/netdev.c:8-14 | no sockets, empty list |
| `Tcp.Network.Create` | syscall/syscalls.c:430-446 | performs the creation step |
| `Tcp.Network.FindSocket` | network/tcp.c:97-104 | the first listed socket that matches, or none |
| `Tcp.Network.RemoveConnection` | network/tcp.c:94-125 | head and links after the removal exactly as the code leaves them, sound or not |
| `Tcp.Network.SocketFree` | network/socket.c:8-14 | count, buffer, and the structure when the count reaches zero |
| `Tcp.Network.EndConnection` | network/tcp.c:130-139 | performs the release step for any place in the list, which survives in memory exactly when the socket was not the first of several |
| `Tcp.Network.HandleSegment` | network/tcp.c:140-241 | performs the frame step after a reset; refuses exactly a SYN for a port that no open socket has |
| `Tcp.Network.HandleFrame` | network/tcp.c:127-241 | performs the frame step, up to the loss of the list; refuses exactly a SYN that no open socket takes |
| `Tcp.Network.PortInUse` | syscall/syscalls.c:474-482 | whether an open socket has the destination port |
| `Tcp.Network.ListAdd` | util/list.c:4-10 | the links after the addition, also of a socket that is in the list |
| `Tcp.Network.Connect` | syscall/syscalls.c:474-495 | performs the connection for every socket held, and says exactly when the invariant survives |
| `Tcp.Network.VfsClose` | fs/vfs.c:139-154 | the answer, the halt and the new state for every socket |
| `Tcp.Network.Close` | syscall/syscalls.c:181-192 | performs the close step; the halt is never reached |
| `Tcp.Network.Exit` | syscall/syscalls.c:62-69 | performs the exit step; the halt is never reached |
| `Tcp.Network.Perform` | network/tcp.c:94-241 | the code performs every step of a run |
| `Tcp.Network.PerformAll` | network/tcp.c:94-241 | and every run |
| `Checksum.OnesSumModulo` | network/ipv4.c:6-16 | end-around carries keep the sum modulo 0xFFFF |
| `Checksum.FoldedExactIff` | network/ipv4.c:14-15 | the single fold is the reference checksum if and only if the halves add up without a carry, and one more otherwise |
| `Checksum.AcceptedIff` | network/ipv4.c:6-16 | a completed packet sums to 0 modulo 0xFFFF, and is accepted, exactly then |
| `Checksum.Ipv4Checksum` | network/ipv4.c:6-16 | the loop is the single fold of the ten words, without overflow |
| `Checksum.TcpChecksum` | network/tcp.c:15-37 | the loop is the single fold of the bytes of pseudo header, in network order, and segment, of even or odd length, without overflow |
| `Checksum.BytesTotalPadded` | network/tcp.c:31-35 | a lone last byte counts as if a zero followed it |
| `Checksum.Ipv4AcceptedIff` | network/ipv4.c:6-16 | a header with the checksum filled in is accepted if and only if the halves add up without a carry |
| `Checksum.TcpAcceptedIff` | network/tcp.c:15-37 | a segment of even or odd length with the checksum filled in is accepted if and only if the halves add up without a carry |

## Left out

- Cloning.ClonePageDirectory: takes the page for the directory as given; `Processes.NewDirectory` gets it from the heap. Both need the frames counted beforehand to be available: running out in the middle of a clone is not modelled.
- Isolation.StepKeeps: stores in the kernel half go to the kernel's own data, and frames are not given back.
- Isolation.RunIsGood: a process whose directory was released runs no more. There is one exception in the code: the idle task shares `initial_pdir` with the first process (task/multitasking.c) and goes on after that process has exited; its steps from then on are left out, as is the rest of `_exit` under the directory it has just freed.
- Isolation.ReleaseKeepsTidy: the released directory is taken to be used no more, with the same exception.
- Isolation.KallocFromKeeps: the given frame is no directory, table or user page; two segments that share a page of the file are left out.
- Isolation.KallocKeeps: leaves out the call in which the last free frame is taken for the page and none is left for its table.
- Vmm.AddressSpaces.KallocPage: leaves out the same call.
- Vmm.AddressSpaces.KallocPageFrom: leaves out a missing table with no frame left.
- Vmm.KallocPageInserts: leaves out the same call as the method.
- Vmm.KallocPageFromInserts: leaves out the same call as the method.
- Vmm.AddressSpaces.NewPageTable: a page table is only created while a frame is left.
- Pmm.FrameAllocator.constructor: kernel images that end in the last page of the 4 GiB are left out, where the 32-bit loop counter would wrap.
- Kmalloc.KernelHeap.constructor: the pages behind the kernel image are taken as unmapped up to 0xF0000000; what the loader maps is not part of this model.
- Kmalloc.KernelHeap.Kmalloc: the heap stays below the temporary pages at 0xF0000000, and the block table is an array beside its metadata page.
- Kmalloc.KernelHeap.Grow: the heap stays below 0xF0000000.
- Kmalloc.KernelHeap.MapPages: the heap stays below 0xF0000000.
- Processes.Kmalloc: the heap stays below 0xF0000000.
- Processes.ReleaseDirectory: the current directory, which `_exit` frees, is left out; frames of the user pages and tables are not given back, as in the code.
- Processes.Load: one page-aligned segment, read into pages that are spare; enough frames are left.
- Processes.Sbrk: the break stays below the user stack at 0xB0000000 and enough frames are left.
- Break.Program.Sbrk: the break stays below the user stack at 0xB0000000 and enough frames are left; wrap-around of the break is not modelled.
- Break.SbrkRun: the same for a run.
- Break.MapNext: the same for one page.
- Break.LoadSegment: one page-aligned segment below 0xB0000000 and enough frames; several segments, the magic number test and unaligned segments are left out.
- Break.Program.constructor: the same segment.
- Break.MapFile: the same segment.
- Break.MapBss: the same segment.
- Ext2Dir.DirectoryReader.Readdir: directories only, without the message for other inodes.
- Ext2Dir.ReaddirCycles: calls on one directory in a row; a call on another directory restarts the cursor.
- Ext2Dir.DoInsert: the look of `advance` at the first word behind the block is not modelled.
- VfsOps.OpenPath: absolute paths; with O_CREAT, paths that do not end in a slash; lengths between the 256 characters of the walk's buffer and PATH_MAX are left out. Relative paths are resolved partly from the root and are left out.
- VfsOps.CreatePath: the same paths, and room where the record is inserted.
- VfsOps.VfsNewInode: the new inode number is a parameter and not that of an existing directory, the name is not in the directory yet, the parent is a directory and its last record has room. Without room bytes behind the block are written (`Ext2Dir.InsertInsideIff`), and in a parent that is no directory the new name is never found (`Volumes.Volume.Search`); devfs leaves its action for new inodes unset, which counts as none.
- VfsOps.NewDirectory: the block is a parameter, taken to be free, and the parent has room.
- VfsOps.VfsMount: devices only; the kernel mounts nothing else.
- VfsOps.DevfsMknod: the name is a new one; the code does not look.
- Volumes.Volume.Insert: the directory has room and the name is new; the other case is `Ext2Dir.InsertInsideIff`.
- Volumes.Volume.Search: directories of one block, as in the code.
- Vfs.VfsSearch: the components are split off before the walk instead of one at a time during it.
- Descriptors.Kernel.DupFd: negative arguments, which index before the table, are left out.
- Descriptors.Kernel.VfsClose: follows the reference count; the removal of the inode from the cache on the last close, and sockets, are not part of this module.
- Tcp.Network.Connect: ARP and the wait for an answer are left out.
- Tcp.Network.HandleFrame: once the first of several connections is removed the head is the address of a list member, and what frames and connections do from there on, the rest of that reset included, is left out; so are sequence numbers, data and the packets sent.
- Tcp.Network.Perform: frames and connections while there is a list; a socket that the network has dropped is not connected to a free port, which breaks the invariant (`Sockets.ConnectKeepsIff`).
- Tcp.Network.PerformAll: the same steps.
- Tcp.Network.Close: sockets are in one slot; duplicated sockets are left out.
- Tcp.Network.Exit: sockets are in one slot; duplicated sockets are left out.
- Sockets.FreedOnceIff: a socket for which no descriptor slot was free counts as held by its user for good.
- Checksum.TcpChecksum: segments below 65536 bytes, as the length field has 16 bits.
- Checksum.TcpAcceptedIff: the same segments.
- Scheduler.Tasks.Exit: the release of program, directory and stack and the process tree are left out.
- Freeing of frames and pages (`kfree_page`, `kfree_page_frame`) in runs: the runs of the address spaces only allocate.
- The translation lookaside buffer, accessed and dirty bits, and write protection: a store through a present page always succeeds.
- Memory is copied word by word, and interrupts do not interleave with the operations of one call.
- ext2 block and inode bitmaps (marked as not working in fs/ext2.c), `ext2_write`, triply indirect blocks, inode sizes other than 128 bytes.
- `socket_read`, `socket_write` and `socket_poll`.
- The process tree, `_waitpid`, `_exec` beyond loading, reading and opening devices, pipes, ttys, drivers, ARP, Ethernet, user programs: input and output, thin wrappers or easy members.
