# Pimento: a verified model

Pimento is a small AArch64 kernel. This project models four parts of it in Dafny and proves what they do over whole
runs: virtual memory and program loading, the virtual file system, the scheduler with its lock handoff, and one-time
initialization. `dafny verify dfyconfig.toml` checks everything.

## What is modelled

**Virtual memory and program loading.**
`PageAllocator` hands out physical pages from a bump cursor. `PageTable` builds descriptors bit by bit and `PhysicalMemory`
stores them as little-endian rows of 4 KiB pages. `Translation` is a separate definition of the hardware walk of section
D8.3 of the Arm Architecture Reference Manual (DDI 0487), written over fields of the descriptor word and independent of
the code that builds tables. `RadixTree` is the tree that those rows form; `AddressSpace` shows that the level-by-level
walk of `alloc_page` refines insertion into a plain map from virtual page to frame, and `MemoryContext` is the class that
does it. `Isolation` runs any number of contexts on one allocator, interleaved down to the allocation and the row write of
each level. `KernelTables` fills the
kernel's own tables and shows that the same hardware walk sees an identity map. `Elf` reads headers and cuts segments into
chunks, `ElfLayout` compares the parser with the layout of the System V gABI, and `Loader` and `TaskExecution` go from the
bytes of a file to the bytes that the task reads through its tables; `LoadBudget` says exactly when loading succeeds.

**Virtual file system.**
`Disks` is the state of a Tmpfs and its tree invariant; `FileContents` is the bytes of a file under any number of cursors;
`Tmpfs` holds the classes. `Mounts` is the mount table with its two resolvers, and `MountLoops` says on which tables their
loops end; `Paths` is path tokens; `Vfs` is path
resolution through mounts and disks; `VirtualFileSystem` and `FileManager` hold the classes.

**Scheduler.**
`Scheduling` is the queue on values, with conservation and the round-robin order. `Handoff` is a machine of interleaved
steps of many cores with interrupt masks and registers, in which one task takes the lock and another releases it.
`ContextSwitch` is the register contexts over whole switches; `Scheduler` is the class.

**One-time initialization.**
`OnceLock` is a machine of interleaved steps of any number of threads.

Where a class updates state, its methods are proved equal to functions on values, and the theorems are about those
functions. Mutexes and the lock of a memory context make their critical sections atomic.

## Conventions and conditions

- Integers are unbounded. Where the source's 64-bit sums could overflow, the condition under which they do not is a stated
  precondition (`PageAllocator.PageAllocator.NoOverflow`) or a lemma (`Elf.RangeFitsInWords`).
- What the source panics on is a precondition: a read that begins past the end of a file, and so an ELF program header table
  or segment that begins past it; an empty current task in `schedule`; a reserved range that ends at address 0.
- `mount` checks nothing that would keep the resolvers from looping. `MountLoops.SequentialMountHaltsExactly` gives the exact
  condition, which a caller can ask before the call: both loops still end from every node if and only if `resolve_subtree` of
  the subtree's root is not `resolve_subtree` of the mount point. `MountLoops.MountingTheRootLoops` and
  `MountLoops.DetachedMountsLoop` are calls that fail it. That the subtree is not the root file system and the mount point
  is attached is enough (`Mounts.MountKeepsOrder`, `MountLoops.OrderHalts`) but not needed: mounting on a detached file system, or
  mounting the root file system on one of its inner directories, can be harmless.
- `mount` releases its lock between resolving and recording. The order of mounting survives any overlap of calls
  (`Mounts.InterleavedMountsStayAcyclic`). Uniqueness of mount points does not (`Mounts.InterleavedMountsShareAPoint`): it holds
  after a run if and only if no call succeeded on a node that was mounted on between its two halves
  (`Mounts.RunKeepsUniqueExactly`).
- `become_kinit` calls `schedule` without masking interrupts. The lock discipline holds in every run if and only if every
  core with a task boots with interrupts masked (`Handoff.DisciplineExactly`); from an open mask the machine can be led to
  a state where the core spins on its own lock whatever any core does afterwards (`Handoff.UnmaskedBootDeadlocks`).
- Tmpfs is called as the virtual file system calls it: with a directory node of that file system. Mounting by path starts
  from a node of an attached file system.
- Tmpfs `mkdir` pushes the link of the new directory twice, and failing calls still advance the node counter; `mknod` on a
  missing directory leaves a file without a name. The model does the same.
- The comments of `load_table`, `load_block` and `load_page` in kernel/src/memory/aarch64/page_table.rs promise a panic; the
  code returns an error. The model follows the code.

## Model

| member | source | states |
|---|---|---|
| PageAllocator.FourPointIsOverlap | kernel/src/memory/page.rs:51-61 | On a non-empty reserved range the four-point test holds exactly when the page and the range share an address |
| PageAllocator.FourPointOnEmptyRange | kernel/src/memory/page.rs:51-61 | An empty range overlaps nothing, yet the test still rejects exactly the pages that hold one of its two end points |
| PageAllocator.PageAllocator.IsBlocked | kernel/src/memory/page.rs:53-61 | The inner loop finds whether some reserved range blocks the page |
| PageAllocator.PageAllocator.Alloc | kernel/src/memory/page.rs:35-73 | A call hands out the first unblocked page at or after the cursor, zeroed, touches no other page, and moves the cursor as specified, on failure too |
| PageAllocator.AllocPopsUsable | kernel/src/memory/page.rs:39-64 | A call pops the list of usable pages; it fails exactly when the list is empty, and then it stays empty |
| PageAllocator.UsableIsExact | kernel/src/memory/page.rs:39-64 | That list holds exactly the aligned, unblocked pages within capacity, in strictly increasing order |
| PageAllocator.RunReturnsUsablePagesInOrder | kernel/src/memory/page.rs:35-73 | Over any number of calls the i-th result is the i-th usable page, and an error from the end of the list on |
| PageAllocator.RunIsSafe | kernel/src/memory/page.rs:35-73 | Every page of any run is aligned, within capacity, disjoint from every reserved range and above all earlier ones; errors persist |
| PhysicalMemory.RowAfterWrite | kernel/src/memory/aarch64/page_table.rs:160-168 | Writing a row and reading it back gives the value; every other row of the table keeps its own |
| PageTable.TableDescriptorMeaning | kernel/src/memory/aarch64/page_table.rs:264-284 | The table builder accepts exactly page-aligned 48-bit addresses, sets type 3, and the address is recovered from the word |
| PageTable.PageDescriptorMeaning | kernel/src/memory/aarch64/page_table.rs:329-366 | The page builder accepts exactly page-aligned 48-bit addresses; the chain of setters yields address, attribute, AF, nG and EL0 bits without touching each other |
| PageTable.BlockDescriptorMeaning | kernel/src/memory/aarch64/page_table.rs:292-322 | The block builder accepts exactly 2 MiB-aligned 48-bit addresses and packs address, attribute, AF and nG |
| PageTable.Lengths | kernel/src/memory/aarch64/page_table.rs:120-126 | A table and a row of each level address 512 times what the next level does: 256 TiB down to 4 KiB |
| RadixTree.LinkKeepsTree | kernel/src/memory/aarch64/memory_context.rs:94-147 | One new link to an unrecorded empty page changes exactly the paths through it, and no page gets a second path |
| RadixTree.OneParentRow | kernel/src/memory/aarch64/memory_context.rs:94-147 | In such a tree each table and each frame is pointed to by one row |
| Translation.LinkKeepsContextOk | kernel/src/memory/aarch64/memory_context.rs:106-113 | Writing the descriptor of a fresh zeroed page keeps every row well formed, every page recorded and every path unique |
| Translation.TranslateIsPageMap | kernel/src/memory/aarch64/memory_context.rs:94-161 | In a context the hardware walk is its page map: mapped pages translate to their frame as Normal memory open to EL0, all other addresses fault |
| AddressSpace.PathSlot | kernel/src/memory/aarch64/page_table.rs:137-152 | On the path of an address `row_by_address` finds a row at every level, and it is the base-512 digit that the hardware uses |
| AddressSpace.PathStart | kernel/src/memory/aarch64/page_table.rs:171-178 | The start of that row is the start of the next table on the path |
| AddressSpace.SeesChild | kernel/src/memory/aarch64/page_table.rs:181-190 | The descriptor type that the code sees tells exactly whether the path goes on, and the address it loads is where |
| AddressSpace.TableStep | kernel/src/memory/aarch64/memory_context.rs:94-119 | A level of the walk keeps the invariant and every translation; an existing table changes nothing; success stands one level deeper |
| AddressSpace.PageStep | kernel/src/memory/aarch64/memory_context.rs:124-147 | The last level returns the frame that is there and changes nothing, or adds exactly one translation to a fresh zeroed page, or fails and changes none |
| AddressSpace.AllocPageRefinesInsert | kernel/src/memory/aarch64/memory_context.rs:150-161 | `alloc_page` is map insertion: on a mapped page it returns the frame and the state is unchanged; on an unmapped one it adds exactly that translation to a fresh zeroed frame; on failure no translation changes |
| AddressSpace.AllocPageFailsExactly | kernel/src/memory/aarch64/memory_context.rs:150-161 | With 48-bit RAM it fails exactly when the address exceeds 48 bits or fewer usable pages remain than the path lacks |
| AddressSpace.NewContextIsEmpty | kernel/src/memory/aarch64/memory_context.rs:46-64 | A context on a fresh zeroed root satisfies the invariant and maps nothing |
| MemoryContext.MemoryContext.New | kernel/src/memory/aarch64/memory_context.rs:46-64 | Creation fails exactly when no page is left; otherwise the context is valid, records its root and maps nothing |
| MemoryContext.MemoryContext.AllocPageRaw | kernel/src/memory/aarch64/memory_context.rs:76-89 | The page is taken from the allocator and recorded |
| MemoryContext.MemoryContext.TraverseTableToTable | kernel/src/memory/aarch64/memory_context.rs:94-119 | The code's row test, allocation and write do what the path view of the level says |
| MemoryContext.MemoryContext.TraverseTableToPage | kernel/src/memory/aarch64/memory_context.rs:124-147 | The same for the last level |
| MemoryContext.MemoryContext.AllocPage | kernel/src/memory/aarch64/memory_context.rs:150-161 | The loop over levels computes the walk on values and keeps the context valid |
| MemoryContext.MemoryContext.CopyToUser | kernel/src/memory/aarch64/memory_context.rs:165-174 | Byte stores at hardware-translated addresses are the copy on values; it stops at the first address that does not translate |
| UserMemory.UserAccessIsTranslatedAccess | kernel/src/memory/aarch64/memory_context.rs:165-174 | A load or store through the page map is a load or store at the address that the hardware walk yields |
| UserMemory.CopyToUserMeaning | kernel/src/memory/aarch64/memory_context.rs:165-174 | A copy goes through exactly when its whole target is mapped; then exactly its bytes change, no translation does, and no page of others does |
| Isolation.StepKeepsOk | kernel/src/memory/aarch64/memory_context.rs:46-174 | Creation, each step of `alloc_page` (following a row, the allocation, the row write), `alloc_page_unmapped` and user stores keep every context well formed and all contexts disjoint |
| Isolation.StepContextOk | kernel/src/memory/aarch64/memory_context.rs:94-161 | The context that acts gains a translation, exactly one and to the page it took, only in the row write of the last level |
| Isolation.TakeThenWrite | kernel/src/memory/aarch64/memory_context.rs:94-147 | With nothing in between, the allocation and the row write are one level of the memory context's walk |
| Isolation.AloneIsAllocPage | kernel/src/memory/aarch64/memory_context.rs:150-161 | With no step of another context in between, the beginning of a call and at most eight further steps leave the context as `alloc_page` does, with its lock released |
| Isolation.CreateMeaning | kernel/src/memory/aarch64/memory_context.rs:46-64 | Creation succeeds exactly while a usable page is left; the new context translates nothing and the others are unchanged |
| Isolation.UnmappedMeaning | kernel/src/memory/aarch64/memory_context.rs:86-89 | The next usable page, if there is one, is recorded and nothing is mapped |
| Isolation.StoreMeaning | kernel/src/memory/aarch64/memory_context.rs:165-174 | A user store sets exactly its bytes in its context, or nothing if some address is not mapped |
| Isolation.StepIsolates | kernel/src/memory/aarch64/memory_context.rs:46-174 | A step in one context changes no translation and no byte in another |
| Isolation.OneOwnerOnePlace | kernel/src/memory/aarch64/memory_context.rs:46-161 | A page in some tree is recorded there, belongs to that context alone, and sits at one place, so none is both table and data |
| Isolation.RunKeepsOk | kernel/src/memory/aarch64/memory_context.rs:46-174 | The system invariant holds after every interleaving, also of steps of other contexts between an allocation and its row write |
| Isolation.EmptySystemOk | kernel/src/memory/page.rs:21-32 | A new allocator with no context satisfies the system invariant, so it holds from the start |
| Isolation.RunIsolates | kernel/src/memory/aarch64/memory_context.rs:46-174 | Whatever the others do in any run, an idle context keeps every translation and every byte |
| KernelTables.PrefixCleared | kernel/src/memory/aarch64/init.rs:46-59 | Masking leaves the 48-bit address, for an address with the kernel prefix as for one without |
| KernelTables.WriteTable | kernel/src/memory/aarch64/page_table.rs:193-200 | For any 64-bit address: succeeds exactly if it is aligned without its prefix and the level is above the last; then one row changes, otherwise none |
| KernelTables.WriteBlock | kernel/src/memory/aarch64/page_table.rs:203-210 | For any 64-bit address: succeeds exactly if it is 2 MiB-aligned without its prefix and the level is below the root; then one row changes, otherwise none |
| KernelTables.WritePage | kernel/src/memory/aarch64/page_table.rs:213-220 | For any 64-bit address: succeeds exactly if it is aligned without its prefix and the level is the last; then one row changes, otherwise none |
| KernelTables.FillLevel1 | kernel/src/memory/aarch64/init.rs:76-85 | The loop writes all 512 rows of the level 1 table and no other page |
| KernelTables.FillLevel3 | kernel/src/memory/aarch64/init.rs:91-98 | The inner loop writes all 512 rows of one level 3 table and no other page |
| KernelTables.FillLevel2 | kernel/src/memory/aarch64/init.rs:87-103 | The nested loops write the level 2 table and the three below it; every other page stays |
| KernelTables.CreateTables | kernel/src/memory/aarch64/init.rs:62-106 | Never fails, returns the root, writes every row of the six tables and changes no other page |
| KernelTables.IdentityMap | kernel/src/memory/aarch64/init.rs:62-106 | The hardware walk maps every address below 2^39 to itself, Normal exactly below 6 MiB and Device above, closed to EL0; no other address translates |
| Elf.Tiling | kernel/src/task/elf.rs:185-227 | Page i of a segment exists exactly for the pages it touches, and covers exactly its addresses in the i-th of them |
| Elf.Ascending | kernel/src/task/elf.rs:185-227 | The ranges ascend without gap from the first address to the last; only the first may begin inside a page |
| Elf.RangeFitsInWords | kernel/src/task/elf.rs:185-227 | When the segment's own sums fit in 64 bits, so does all that `range` computes for it |
| Elf.ChunkBytes | kernel/src/task/elf.rs:248-254 | Each chunk holds exactly its part of the segment: file bytes, then zeroes |
| Elf.SegmentIsPartitioned | kernel/src/task/elf.rs:233-261 | The chunks of a header partition `[p_vaddr, p_vaddr + p_memsz)` in ascending order, each in one page, each byte with its value; other headers have none |
| Elf.NewReader | kernel/src/task/elf.rs:123-151 | Succeeds exactly when the file holds a valid header and its whole program header table; then the headers are those of the table, in order |
| Elf.ReadProgramHeaders | kernel/src/task/elf.rs:135-144 | The loop reads consecutive 56-byte slices and fails exactly when the file is too short |
| Elf.LoadablePages.LoadChunk | kernel/src/task/elf.rs:248-254 | Seek, read and pad yield the chunk of the range |
| Elf.LoadablePages.Next | kernel/src/task/elf.rs:233-261 | Pops the list of remaining chunks, across headers without chunks; ends exactly when it is empty |
| ElfLayout.ProgramHeaderRoundTrip | kernel/src/task/elf.rs:82-112 | A program header laid out as the System V gABI says parses back to itself |
| ElfLayout.AcceptedHeaders | kernel/src/task/elf.rs:46-62 | The reader accepts exactly the headers with these magic, class, data, version, ABI, type, machine and entry-size bytes |
| ElfLayout.HeaderFields | kernel/src/task/elf.rs:22-44 | Entry point, program header offset and count are read from where the standard puts them |
| Loader.LoadChunkMeaning | kernel/src/task/aarch64/task_execution.rs:38-48 | A turn of the loop fails only if `alloc_page` does; then each byte of the address space is the chunk's, zero on a new page, or as before |
| Loader.LoadAllIsOverlay | kernel/src/task/aarch64/task_execution.rs:38-48 | After the whole loop each byte is what the chunks, in order, make of it |
| Loader.LoadedProgram | kernel/src/task/aarch64/task_execution.rs:37-57 | For disjoint segments that fit in the file: after success every segment byte is the file's byte or zero past the file size, also on shared pages; every other byte is as before, or zero on a new page, the stack page included |
| Loader.SegmentsTranslate | kernel/src/task/aarch64/task_execution.rs:37-57 | The same at the physical address that the hardware walk of the task's tables yields |
| LoadBudget.AllocFromGains | kernel/src/memory/aarch64/memory_context.rs:150-161 | A successful `alloc_page` adds exactly the paths of its page to the tree |
| LoadBudget.AllocPageBudget | kernel/src/memory/aarch64/memory_context.rs:150-161 | It fails only if fewer usable pages remain than a set of pages with this one lacks; otherwise usable minus missing stays the same |
| LoadBudget.LoadSucceedsExactly | kernel/src/task/aarch64/task_execution.rs:38-54 | The loop and the stack mapping succeed exactly when every chunk lies below 2^48 and the usable pages cover the tables and frames that all these pages together lack, each counted once |
| LoadBudget.ProgramLoadsExactly | kernel/src/task/aarch64/task_execution.rs:37-54 | The same in terms of the pages that the program's segments touch |
| LoadBudget.FourPagesEachAreEnough | kernel/src/task/aarch64/task_execution.rs:37-54 | Four usable pages for each page touched and four for the stack are enough |
| TaskExecution.LoadPage | kernel/src/task/aarch64/task_execution.rs:38-48 | The two calls of the loop body are one turn on values |
| TaskExecution.Execute | kernel/src/task/aarch64/task_execution.rs:37-57 | The loop over the iterator and the stack mapping are the load on values |
| TaskExecution.ExecuteFile | kernel/src/task/aarch64/task_execution.rs:30-64 | From an open file with 48-bit RAM: succeeds exactly when the touched pages lie below 2^48 and the usable pages cover what the tables lack for them and the stack; then the task's whole address space is as the file's segments say and the entry point is the header's |
| Disks.MkdirGrows | kernel/src/fs/tmpfs.rs:56-81 | The parent's list grows at its end by links to the new directory, which gets "." and ".."; nothing else changes |
| Disks.MknodGrows | kernel/src/fs/tmpfs.rs:87-102 | The parent's list grows at its end by a link to the new empty file; nothing else changes |
| Disks.MissingDirectoryFails | kernel/src/fs/tmpfs.rs:56-102 | On a missing directory both calls fail; `mkdir` only uses up an id, `mknod` leaves an empty file without a name |
| Disks.MkdirKeepsOk | kernel/src/fs/tmpfs.rs:56-81 | `mkdir` keeps the tree invariant, on failure too |
| Disks.MknodKeepsOk | kernel/src/fs/tmpfs.rs:87-102 | `mknod` keeps the tree invariant, on failure too |
| Disks.RunKeepsTree | kernel/src/fs/tmpfs.rs:25-102 | After any run: ids are unique and below the counter, every linked node has its table entry, directories begin with "." and a ".." to a smaller id, children are listed by the directory their ".." names, under one name in one directory |
| Disks.ParentsReachRoot | kernel/src/fs/tmpfs.rs:25-102 | From every directory the ".." links reach the root |
| FileContents.ReadMeaning | kernel/src/fs/tmpfs.rs:146-158 | A read returns as many bytes as asked for and there are, each from its place |
| FileContents.WriteMeaning | kernel/src/fs/tmpfs.rs:160-176 | A write extends the file to its end, fills any gap with zeroes and replaces exactly its span |
| FileContents.WriteThenRead | kernel/src/fs/tmpfs.rs:146-176 | Write, seek back, read returns the written bytes |
| FileContents.PositionIsCursor | kernel/src/fs/file.rs:35-69 | In any run of any handles the position of a handle follows from its own seeks, its own writes and the lengths that its own reads returned |
| FileContents.FileIsItsHistory | kernel/src/fs/file.rs:35-69 | After any run of any handles each byte is that of the latest write that covers it, else the original, else zero; the length is the farthest end written |
| FileContents.ReadReturnsHistory | kernel/src/fs/file.rs:46-56 | In any run a read returns what the write history says from its cursor on |
| FileContents.ReadsConcatenate | kernel/src/fs/file.rs:46-56 | Successive reads, however cut, concatenate to one read of the whole |
| Tmpfs.Tmpfs.Mkdir | kernel/src/fs/tmpfs.rs:56-81 | The updates in place compute `mkdir` on values and keep the invariant |
| Tmpfs.Tmpfs.Mknod | kernel/src/fs/tmpfs.rs:87-102 | The updates in place compute `mknod` on values and keep the invariant |
| Tmpfs.Tmpfs.Readdir | kernel/src/fs/tmpfs.rs:122-136 | The link at the position, none past the end, an error exactly for a missing directory |
| Tmpfs.Tmpfs.Read | kernel/src/fs/tmpfs.rs:146-158 | The bytes from the position up to the count or the end; an error exactly for a missing file |
| Tmpfs.Tmpfs.Write | kernel/src/fs/tmpfs.rs:160-176 | Resize and copy compute the write on values; other files stay; the tree stays |
| Tmpfs.File.Seek | kernel/src/fs/file.rs:35-43 | The handle steps as a cursor over the file |
| Tmpfs.File.Read | kernel/src/fs/file.rs:46-56 | The same for reads; the cursor advances by what was read |
| Tmpfs.File.Write | kernel/src/fs/file.rs:59-69 | The same for writes; other files stay |
| Tmpfs.Directory.Readdir | kernel/src/fs/directory.rs:58-68 | Yields the link at the cursor and advances it |
| Mounts.MountsClimb | kernel/src/fs/virtual_file_system.rs:46-87 | In mounting order every mount point ranks below what is mounted on it: the measure of both resolver loops |
| Mounts.SubtreeMountedOnce | kernel/src/fs/virtual_file_system.rs:100-106 | No subtree is mounted twice |
| Mounts.ResolversIdempotent | kernel/src/fs/virtual_file_system.rs:46-87 | Both resolvers are idempotent, and `changed` is exactly that the node differs |
| Mounts.DownAfterUp | kernel/src/fs/virtual_file_system.rs:46-87 | `resolve_mount_point` after `resolve_subtree` is `resolve_mount_point` |
| Mounts.UpAfterDown | kernel/src/fs/virtual_file_system.rs:46-87 | `resolve_subtree` after `resolve_mount_point` is `resolve_subtree`, given unique mount points |
| Mounts.ResolversAreOpposite | kernel/src/fs/virtual_file_system.rs:46-112 | All four laws after any sequence of sequential mounts |
| Mounts.MountKeepsOrder | kernel/src/fs/virtual_file_system.rs:90-112 | A successful mount goes on with the order of mounting exactly when the subtree is not the root file system and the mount point is attached; unique mount points stay unique |
| Mounts.MountSucceedsExactly | kernel/src/fs/virtual_file_system.rs:90-112 | `mount` succeeds exactly when what covers the point is a directory and the subtree is not mounted yet; then the table gains exactly that mount |
| Mounts.MountCovers | kernel/src/fs/virtual_file_system.rs:90-112 | After a mount its point resolves to the root of the mounted subtree |
| Mounts.SequentialMountsAreUnique | kernel/src/fs/virtual_file_system.rs:90-112 | Sequential mounts never share a mount point |
| Mounts.OverlapKeepsAcyclic | kernel/src/fs/virtual_file_system.rs:90-112 | Either half of a `mount` call, among other pending calls, keeps the graph acyclic |
| Mounts.BeginThenFinish | kernel/src/fs/virtual_file_system.rs:90-112 | The two halves with nothing in between are a sequential call |
| Mounts.InterleavedMountsStayAcyclic | kernel/src/fs/virtual_file_system.rs:90-112 | In any interleaving of any number of calls the graph is acyclic and no subtree is mounted twice |
| Mounts.PushKeepsUniqueExactly | kernel/src/fs/virtual_file_system.rs:93-110 | The second half of a call keeps mount points unique exactly when its node has no mount yet |
| Mounts.RunKeepsUniqueExactly | kernel/src/fs/virtual_file_system.rs:90-112 | After any interleaving of any number of calls mount points are unique exactly when no call succeeded on a node mounted on between its two halves |
| Mounts.InterleavedMountsShareAPoint | kernel/src/fs/virtual_file_system.rs:90-112 | A run of two overlapping calls on one node that leaves two mounts on it |
| MountLoops.EdgeHaltsExactly | kernel/src/fs/virtual_file_system.rs:52-84 | One more edge keeps a resolver loop ending from every node exactly when the walk from the edge's target does not end at its source |
| MountLoops.PushHaltsExactly | kernel/src/fs/virtual_file_system.rs:93-110 | For the second half of any call, overtaken or not: exactly when each resolver loop still ends from every node |
| MountLoops.MountHaltsExactly | kernel/src/fs/virtual_file_system.rs:90-112 | A successful mount on any table keeps each loop ending exactly when what that resolver returns before the call tells the two nodes apart |
| MountLoops.EndsAreOpposite | kernel/src/fs/virtual_file_system.rs:46-87 | On every table with unique subtrees and points on which the loops end, each resolver after the other is the first alone |
| MountLoops.OneQuestion | kernel/src/fs/virtual_file_system.rs:46-112 | On such a table the condition for the way up and the one for the way down are the same |
| MountLoops.SequentialMountHaltsExactly | kernel/src/fs/virtual_file_system.rs:90-112 | After a successful sequential mount both loops end from every node exactly when `resolve_subtree` of the subtree's root and of the mount point differed; otherwise neither does |
| MountLoops.Table | kernel/src/fs/virtual_file_system.rs:90-112 | After any sequence of calls that met the condition or failed, attached or not, both loops end and subtrees and points are unique |
| MountLoops.OrderHalts | kernel/src/fs/virtual_file_system.rs:46-87 | On a table in mounting order both loops end, at the nodes that the resolvers on values give |
| MountLoops.MountingTheRootLoops | kernel/src/fs/virtual_file_system.rs:75-112 | Mounting the root file system on its own root succeeds, and `resolve_subtree` then never ends |
| MountLoops.DetachedMountsLoop | kernel/src/fs/virtual_file_system.rs:75-112 | Two mounts on detached file systems succeed, and `resolve_subtree` then never ends |
| Paths.TokensAreProper | kernel/src/fs/file_manager.rs:79-86 | No token is empty, holds a slash, or is a literal "." or ".." |
| Paths.TokensConcat | kernel/src/fs/file_manager.rs:79-86 | Joining two paths with a slash joins their tokens |
| Paths.JoinThenTokens | kernel/src/fs/file_manager.rs:33-86 | Writing tokens out and reading them back is the identity |
| Vfs.FindMeaning | kernel/src/fs/file_manager.rs:146-151 | The scan finds the first link of the name, and nothing exactly when no link has it |
| Vfs.LookupMeaning | kernel/src/fs/file_manager.rs:142-154 | A step succeeds exactly when the covering node is a directory that lists the name, and leads to the node of its first such link |
| Vfs.StepFromDirectory | kernel/src/fs/file_manager.rs:142-154 | From a known directory a step succeeds exactly if the name is listed; "." is the covering directory itself and ".." the directory it was created in |
| Vfs.NamesAreDistinct | kernel/src/fs/file_manager.rs:142-154 | Lookups of different names, or in different directories, never lead to the same node |
| Vfs.PathsAreDistinct | kernel/src/fs/file_manager.rs:135-157 | Paths that differ in their last name resolve to different nodes |
| Vfs.WalkStable | kernel/src/fs/file_manager.rs:135-157 | A path that resolves keeps its node when directories only gain links at their end |
| Vfs.WalkConcat | kernel/src/fs/file_manager.rs:135-157 | Walking a concatenation is walking one part after the other |
| Vfs.MakeAtExtends | kernel/src/fs/file_manager.rs:167-197 | `mkdir` or `mknod` at any path, failing or not, keeps the world's invariant and only extends directories |
| Vfs.MakeAtSucceedsExactly | kernel/src/fs/file_manager.rs:167-197 | `mkdir` and `mknod` succeed exactly when the path ends in a name other than "." and ".." and what is before it leads to a directory; success grows that directory by the new node and changes nothing else, failure leaves every directory |
| Vfs.RunsKeepPaths | kernel/src/fs/file_manager.rs:135-197 | No run of `mkdir` and `mknod`, with duplicate names and failing calls, changes what a resolved path resolves to |
| Vfs.NewPathResolves | kernel/src/fs/file_manager.rs:99-197 | A path that did not resolve and is created resolves to a fresh node that no mount covers; for a directory "p/.." is the parent's node up to `resolve_subtree` |
| Vfs.WalkKnown | kernel/src/fs/file_manager.rs:135-157 | From a known node a walk reaches only nodes of attached file systems with their table entries |
| Vfs.MountAtKeepsOk | kernel/src/fs/file_manager.rs:160-164 | Mounting by path keeps the world's invariant, and the path then leads to the root of the subtree |
| Vfs.MountAtSucceedsExactly | kernel/src/fs/file_manager.rs:160-164 | Mounting by path succeeds exactly when the path resolves to something covered by a directory and the subtree is not mounted yet; then the table gains exactly that mount |
| Vfs.FirstWorldOk | kernel/src/fs/virtual_file_system.rs:31-36 | A new virtual file system satisfies the world's invariant |
| Vfs.History | kernel/src/fs/file_manager.rs:160-197 | From a new virtual file system on, after any run of new file systems, `mkdir`, `mknod` and `mount`, failing or not, the world's invariant holds and no node has two mounts |
| VirtualFileSystem.VirtualFileSystem.constructor | kernel/src/fs/virtual_file_system.rs:31-36 | Creates the root file system, mounts nothing, and is valid |
| VirtualFileSystem.VirtualFileSystem.ResolveSubtree | kernel/src/fs/virtual_file_system.rs:75-87 | The loop ends, finds the top of the chain, and reports exactly whether the node differs |
| VirtualFileSystem.VirtualFileSystem.ResolveMountPoint | kernel/src/fs/virtual_file_system.rs:46-70 | The loop ends, finds the bottom of the chain, and reports exactly whether the node differs |
| VirtualFileSystem.VirtualFileSystem.Mount | kernel/src/fs/virtual_file_system.rs:90-112 | The call is `mount` on values and succeeds exactly for a covering directory and a subtree not mounted yet; no disk changes |
| VirtualFileSystem.VirtualFileSystem.Mkdir | kernel/src/fs/virtual_file_system.rs:115-128 | Resolves, checks and creates as on values; every other file system stays |
| VirtualFileSystem.VirtualFileSystem.Mknod | kernel/src/fs/virtual_file_system.rs:147-160 | The same for files |
| VirtualFileSystem.VirtualFileSystem.Opendir | kernel/src/fs/virtual_file_system.rs:190-201 | Opens the covering directory at its first link, and fails exactly when it is not a directory of a live file system |
| VirtualFileSystem.VirtualFileSystem.Open | kernel/src/fs/virtual_file_system.rs:204-215 | Opens the covering node at position 0, and fails exactly for directories or a dead file system |
| FileManager.Search | kernel/src/fs/file_manager.rs:146-151 | The scan with the directory's cursor finds the first link of the name, and fails exactly when there is none |
| FileManager.FileManager.Step | kernel/src/fs/file_manager.rs:142-154 | One turn of the walk is one lookup on values |
| FileManager.FileManager.Walk | kernel/src/fs/file_manager.rs:135-157 | The nested loops compute the walk on values |
| FileManager.FileManager.Mkdir | kernel/src/fs/file_manager.rs:167-175 | Creation at a path as on values; succeeds exactly when the path ends in a proper name below a directory |
| FileManager.FileManager.Mknod | kernel/src/fs/file_manager.rs:189-197 | The same for files |
| FileManager.FileManager.Mount | kernel/src/fs/file_manager.rs:160-164 | Mounting at a path as on values; succeeds exactly when the path resolves to something covered by a directory and the subtree is not mounted yet |
| FileManager.FileManager.Open | kernel/src/fs/file_manager.rs:223-227 | Opens what the path leads to through any mount, on its file system; fails exactly when the path does not resolve or leads to a directory |
| Scheduling.ScheduleKeepsConserved | kernel/src/task/scheduler.rs:120-129 | A call keeps the queue and the running tasks exactly the registered tasks; both tasks it looks up are registered, so no `unwrap` fails |
| Scheduling.AddKeepsConserved | kernel/src/task/scheduler.rs:64-79 | Adding a task keeps conservation exactly when its id is new |
| Scheduling.AdoptKeepsConserved | kernel/src/task/scheduler.rs:44-56 | So does adopting an idle core |
| Scheduling.ConservedMeans | kernel/src/task/scheduler.rs:44-79 | Conservation means: no task on two cores, none both running and queued, none queued twice, none lost |
| Scheduling.RunKeepsConserved | kernel/src/task/scheduler.rs:44-129 | Conservation holds in every run of any cores |
| Scheduling.ChosenInQueueOrder | kernel/src/task/scheduler.rs:64-126 | The task at queue index k is what the (k+1)-th following call picks, whatever is added in between and whichever cores call |
| Scheduling.ChosenNoEarlier | kernel/src/task/scheduler.rs:64-126 | No earlier call picks it |
| Scheduling.FullRound | kernel/src/task/scheduler.rs:109-129 | On one core with n tasks any n consecutive calls pick each task exactly once and leave the scheduler as it was |
| Handoff.ActKeepsGood | kernel/src/task/scheduler.rs:40-152 | Every step of every core, interrupts, masked handlers and exception returns included, keeps the invariant that ties frames, masks, lock, registers and history together |
| Handoff.LockHandoff | kernel/src/task/scheduler.rs:40-152 | In every run in which each core with a task boots masked: a holder has IRQs masked and cannot be interrupted, no core spins on a lock it holds, the history is made of complete blocks, and tasks are conserved |
| Handoff.AcquisitionsAreReleased | kernel/src/task/scheduler.rs:109-152 | Each acquisition in `schedule` is followed by one switch on that core and one release by the task switched to; in a critical section by its own release |
| Handoff.Entries | kernel/src/task/scheduler.rs:40-58 | An interrupt masks and stands before the lock in `schedule`; other exceptions mask, and their return restores a mask |
| Handoff.OtherCoresKeepOut | kernel/src/task/scheduler.rs:40-152 | A step of one core changes neither the mask nor the frames nor the task of another |
| Handoff.UninterruptedSchedule | kernel/src/task/scheduler.rs:109-152 | With the lock free `schedule` takes it, switches, releases it in the incoming task and opens the mask: four steps that are the call on values, registers included |
| Handoff.UninterruptedCritical | kernel/src/cpu/aarch64/interrupt_mask.rs:27-40 | With the lock free a critical section takes and releases it, does its work and leaves the mask as on entry |
| Handoff.DisciplineExactly | kernel/src/task/scheduler.rs:40-152 | Every run from a boot is disciplined on every core exactly when each core with a task boots masked |
| Handoff.StuckForEver | kernel/src/task/scheduler.rs:109-129 | Once a core spins on its own lock and no other core is past it, the lock stays held and the core spins after every continuation of any cores |
| Handoff.UnmaskedBootDeadlocks | kernel/src/task/scheduler.rs:40-61 | From any boot with an open mask, three steps lead to such a state |
| Handoff.RunProjects | kernel/src/task/scheduler.rs:109-143 | Every interleaved run is, in its registers and tasks, a run of whole switches |
| Handoff.InterleavedContextPreserved | kernel/src/task/scheduler.rs:109-143 | In every interleaved run a switch leaves the core with the registers of its new task's last switch-out, or with its initial context |
| ContextSwitch.CpuContextSwitch | kernel/src/cpu/aarch64/cpu_context.s:4-27 | The outgoing context receives all registers and the core receives the incoming one, also when both are one |
| ContextSwitch.ContextPreserved | kernel/src/task/scheduler.rs:109-143 | Over every run, when a task becomes current its core's registers are those of its last switch-out, or its initial context |
| Scheduler.Scheduler.BecomeKinit | kernel/src/task/scheduler.rs:40-61 | The task adopts core 0 and switches to itself; registers are unchanged, the lock is free and interrupts are open |
| Scheduler.Scheduler.AddTask | kernel/src/task/scheduler.rs:64-79 | The task joins the back of the queue; the scheduler stays valid exactly when the id is new; lock and mask are as before |
| Scheduler.Scheduler.CurrentTaskId | kernel/src/task/scheduler.rs:93-101 | The id is registered and not queued; lock and mask are as before |
| Scheduler.Scheduler.Schedule | kernel/src/task/scheduler.rs:109-152 | The queue rotates as on values, contexts are exchanged, the lock is released and interrupts are open |
| OnceLock.ActKeepsOk | kernel/src/sync/once_lock.rs:27-61 | Every step of every thread keeps the invariant that ties lock, flag, data and history together |
| OnceLock.ActKeepsHistory | kernel/src/sync/once_lock.rs:27-61 | Every step of every thread keeps the history's account of calls in progress and of finished calls |
| OnceLock.InitializedOnce | kernel/src/sync/once_lock.rs:27-61 | In every interleaving at most one closure runs, at most one `set` returns `Ok`, and all values returned are one value |
| OnceLock.ReadsComeFromARun | kernel/src/sync/once_lock.rs:27-61 | Every value returned is that of a closure that ran earlier in the history |
| OnceLock.CallsReturnExactly | kernel/src/sync/once_lock.rs:27-61 | A finished `get` returned a value exactly if initialization had completed when it held the lock; every other finished call returned one, says that its closure ran exactly if it ran during the call, and then returned its own |
| OnceLock.LaterCallsFindIt | kernel/src/sync/once_lock.rs:27-61 | A call that begins after some call has returned a value returns that value |
| OnceLock.SoloGet | kernel/src/sync/once_lock.rs:27-36 | With the lock free a `get` on its own returns what is there |
| OnceLock.SoloFirstInit | kernel/src/sync/once_lock.rs:39-61 | With the lock free and the cell empty a `set` or `get_or_init` on its own runs its closure once and returns its value |
| OnceLock.SoloLaterInit | kernel/src/sync/once_lock.rs:39-61 | With the cell full it runs no closure and returns what is there |
| OnceLock.ReadsAreInitialized | kernel/src/sync/once_lock.rs:27-61 | Whenever a thread is about to read the data it has been written; a `set` whose closure ran finds its own value |

## Left out

- Device drivers, logging, the vector table, the interrupt and system call routers and Devfs: I/O and thin table lookups.
- What handlers do between `after_schedule` and their exception return, and the timer: the return itself is a step that restores some mask.
- `rmdir`, `unlink` and `rename`: Tmpfs leaves them unimplemented.
- `VirtualFileSystem::readdir`: its redirection of ".." is not used by `walk`, so nothing is claimed about ".." across mounts.
- Page and heap deallocation: not implemented in the source.
- The global heap: a simpler form of the page allocator that would only add easy members.
- TLBs, caches, weak memory ordering and ASID wrap-around: the walker is coherent and memory sequentially consistent.
- Reference counting: file systems stay alive, so `upgrade` succeeds for every file system in the model's map.
- `OnceLock`, `Once` and `Lock` are modelled on values as interleaved steps, without a class; a closure is one step that yields a value and does not itself use the cell.
- `PathInfo::new` and `PathInfo::absolute`: a path is given as a start node and its tokens.
- Liveness: nothing is claimed about how long a core or thread spins.
- Handoff.LockHandoff: boot begins after `become_kinit` has adopted its core, so the adoption itself is only in `Scheduling` and `Scheduler`.
- MemoryContext.MemoryContext.CopyToUser: stands for stores by the hardware while this context's tables are active; the source does not handle the fault that the model reports as an error.
- Elf.LoadablePages.Next: the file is there, so its reads succeed; the source ends the iteration silently when one fails.
- Scheduler.Scheduler.Schedule: one call at a time with the lock free, because waiting for another core is the subject of `Handoff`.
- Scheduler.Scheduler.BecomeKinit: the same, with the lock free.
- Scheduler.Scheduler.AddTask: the same, with the lock free.
- Scheduler.Scheduler.CurrentTaskId: the same, with the lock free.
