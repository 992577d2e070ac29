# PeachOS kernel model

PeachOS is a small 32-bit x86 kernel. This project models its stateful core in Dafny and proves what that
core is for: for which programs processes cannot write each other's memory (`IsolationLoad.LoadIsConfined`), what
each of them gives back when it ends and what it leaves behind, when files are read as they lie on the disk, that
keys and time slices arrive in order, and that its parsers and printers mean what they say.

The modules follow the source, one stack at a time, each layer proved against a simpler one.

* **Memory.** `Words` holds the 32-bit arithmetic. `HeapTable` is the block table of the kernel heap as a value,
  with the set of live block intervals it stands for; `HeapRuns` proves that every run of allocations and frees
  refines a heap of disjoint intervals, and that equal intervals mean equal bytes. `Heap` and `Kheap` are the
  allocator's loops over the real table and over physical memory (`PhysicalMemory`, 2^30 little-endian words).
  `PageTable`, `Directory` and `Paging` are page directories in that memory, refined to a map from 2^20 pages to
  entries as sections 4.3 and 4.6 of the Intel SDM, volume 3A, read them. `Ledger` and `Process` are the allocations of
  one process. `ElfLoader` and `ImageMap` place a program in its address space; `CopyString` moves a string out of
  it. `Isolation` puts heap, ledgers, page directories, images, stacks and structures of any number of processes
  together under one invariant. `IsolationSteps`, `IsolationLoad`, `IsolationFailures`, `IsolationLifetime` and
  `IsolationCopy` prove that allocating, freeing, storing, loading, failing to load, terminating and copying strings
  keep it, `IsolationRuns` that every run does and what follows at any time. `IsolationEffects`, `IsolationProcesses`
  and `IsolationContents` say what each action does, down to the bytes, without naming its step; `IsolationOutcomes`
  and `IsolationWitness` what is left when processes have ended.
* **Disk.** `DiskStream` reads any byte range of the disk image sector by sector; `Fat16` reads a file cluster
  by cluster on top of it, walking the chain from its start for every chunk.
* **Scheduler and keyboard.** `TaskList` is the linked list of tasks and its round robin, `Keyboard` the ring
  buffer of each process.
* **Parsers and printers.** `Splitting` says what the tokens of a text are; `Commands` is the C library's `strtok`
  with its global cursor and the command parser above it. `PathText` says what a path means; `PathParser` builds
  the path's list out of heap blocks and frees it. `Itoa` prints numbers.

Code that changes state is a class or a method over arrays, tied by its contract to a function or a predicate on
values; the properties are lemmas about those. `hide` statements at the head of a proof keep definitions it does
not need away from the solver.

Some of what is proved is that the code does not do what one would expect.

* The first-fit search answers a request that does not fit with a run that is too short when the last block is
  free: `HeapTable.SafeExact` gives the exact condition, `HeapTable.ShortTailIsGranted` the smallest input.
* `process_malloc` of size 0 is not refused: it hands out the address of free blocks and keeps it in the ledger, unless
  the ledger is full or the pool's last block taken (`IsolationEffects.MallocOfNothing`).
* Nothing compares a segment's size in memory with the file. A writeable segment that runs over the end of the file
  is mapped over the frames behind it, whoever has them.
  `ImageMap.LoadedStaysInFile` and `ImageMap.SegmentsStayInFile` say exactly for which programs that does not happen,
  `ImageMap.LargeBssLeavesFile` gives one for which it does; the isolation results over runs are about loads that
  meet the condition, and by `IsolationLoad.LoadIsConfined` no other load is confined to its image.
* Nothing frees the process structure, nor what a failed load or the failed attempt to read a flat file as an ELF
  image took. `IsolationOutcomes.WhatRunsLeave` counts it over any run; one program loaded and terminated leaves
  three blocks (`IsolationWitness.OneProgramLeavesItsStructure`).
* A chunked read of a file crosses into the wrong cluster when it starts inside one: `Fat16.ReadExact` is the
  condition, `Fat16.ReadFromTheMiddleMisreads` a file.
* Removing a task leaves its successor's back link wrong (`TaskList.TaskList.TaskListRemove`), and
  `TaskList.RemovingTwiceBreaks` the list.
* A saved `strtok` cursor wins over the argument (`Commands.Tokenizer.Strtok`), so the next line is not read at all
  while words of the last one are left (`Commands.StaleCursorWins`); `Commands.ParseCommand` leaves such a cursor
  behind exactly when an allocation failed.
* A key pushed into a full ring takes the place of the oldest one and is popped first (`Keyboard.FullRingOverwrites`).
* The ELF header fold compares a load address with a link address: `ElfLoader.FoldFindsExtremes` is the condition
  for the base after every header, `ElfLoader.UnequalAddressesMislead` a file that fails it, and
  `ElfLoader.LaterHeaderRepairs` one whose base comes right in the end.

Where comments in the source promise otherwise, the model follows the code.

## Model

| member | source | states |
|---|---|---|
| Words.BlocksExact | src/memory/heap/heap.c:55-65 | rounding up is the ceiling exactly for sizes that do not wrap 32 bits; only 0 and the wrapping sizes get no block |
| Words.SetByteEffect | src/memory/memory.c:3-11 | storing one byte of a little-endian word changes that byte and none of the other three |
| HeapTable.FirstFitExact | src/memory/heap/heap.c:72-106 | for n >= 1: the lowest start of n free blocks if one exists; otherwise the error when the last block is taken, and the start of the too short trailing run when it is free |
| HeapTable.SafeExact | src/memory/heap/heap.c:134-151 | marking stays inside the table if and only if the request is 0, fits somewhere, or the last block is taken |
| HeapTable.SafeOne | src/memory/heap/heap.c:72-106 | a one-block request is always answered inside the table |
| HeapTable.ShortTailIsGranted | src/memory/heap/heap.c:72-106 | a request for two blocks of a pool of one free block is answered with the start of the pool |
| HeapTable.ChainBytes | src/memory/heap/heap.c:113-132 | each block of a live chain carries exactly the flags of its position: IS_FIRST on the first only, HAS_NEXT on all but the last |
| HeapTable.ChainsDisjoint | src/memory/heap/heap.c:113-132 | two live chains never share a block |
| HeapTable.Partition | src/memory/heap/heap.c:113-165 | every taken block lies in exactly one live chain |
| HeapTable.Canonical | src/memory/heap/heap.c:113-165 | two well-formed tables with the same live intervals are equal byte for byte |
| HeapTable.MarkTakenLive | src/memory/heap/heap.c:113-132 | marking n free blocks adds one live chain of n blocks and changes no other |
| HeapTable.FreeChainLive | src/memory/heap/heap.c:153-165 | freeing a live chain clears its blocks and no neighbour's, even of an adjacent chain, and removes only it from the live set |
| HeapTable.MallocBlocksLive | src/memory/heap/heap.c:134-151 | a request is granted if and only if a run of free blocks fits, at the lowest one, and adds one chain of the requested length there; a refused one changes nothing |
| HeapTable.NothingIsGranted | src/memory/heap/heap.c:134-151 | a request for no block takes none and is answered with the start of the free blocks at the end, or refused if there are none |
| HeapTable.FreeUndoesMalloc | src/memory/heap/heap.c:172-182 | freeing the most recent allocation restores the whole table bit for bit |
| HeapRuns.TakeAllLive | src/memory/heap/heap.c:134-151 | k one-block allocations hand out k distinct blocks that were free and add exactly those to the live chains |
| HeapRuns.TakeStep | src/memory/heap/heap.c:134-151 | the k-th of a batch of one-block allocations is granted and returns the k-th block of the batch |
| HeapRuns.FreeCountIs | src/memory/heap/heap.c:134-151 | the room that batches are granted by is the number of free blocks |
| HeapRuns.FreeAllLive | src/memory/heap/heap.c:153-165 | freeing any distinct live chains in any order removes exactly those |
| HeapRuns.FreeAllUndoesTakeAll | src/memory/heap/heap.c:134-165 | freeing the blocks of a batch in any order restores the table bit for bit |
| HeapRuns.StepRefines | src/memory/heap/heap.c:134-182 | each allowed call keeps the table well formed and is the step of a heap of intervals: the lowest interval beside the live ones is granted, a refusal means that there is none |
| HeapRuns.FreeIsBeside | src/memory/heap/heap.c:134-151 | runs of free blocks are exactly the intervals beside the live ones |
| HeapRuns.RunSnoc | src/memory/heap/heap.c:134-182 | a run is its calls, one after the other |
| HeapRuns.RunRefines | src/memory/heap/heap.c:113-182 | every interleaving of allowed allocations and frees keeps the table well formed and refines a run of the interval heap |
| HeapRuns.RunsAgree | src/memory/heap/heap.c:113-182 | two runs that leave the same intervals live leave the same bytes |
| Heap.Heap.Create | src/memory/heap/heap.c:28-53 | succeeds exactly for aligned bounds and a table of the pool's size, and then all entries are free |
| Heap.Heap.GetStartBlock | src/memory/heap/heap.c:72-106 | the scan with its two counters computes the first-fit answer of HeapTable |
| Heap.Heap.MarkBlocksTaken | src/memory/heap/heap.c:113-132 | the loop writes a chain at the given blocks and nothing else |
| Heap.Heap.MallocTotal | src/memory/heap/heap.c:134-151 | new table and returned address are those of the table's allocation, null on failure |
| Heap.Heap.MarkBlocksFree | src/memory/heap/heap.c:153-165 | the loop clears the chain it enters and nothing else |
| Heap.Heap.Malloc | src/memory/heap/heap.c:172-177 | allocates the blocks that the size is rounded to |
| Heap.Heap.Free | src/memory/heap/heap.c:179-182 | clears the chain that starts at the block of the address |
| PhysicalMemory.WithByteEffect | src/memory/memory.c:3-11 | a stored byte is read back and no other byte of memory changes |
| PhysicalMemory.ZeroFillEffect | src/memory/memory.c:3-11 | after clearing, the bytes of the range read 0 and all others as before |
| Kheap.Machine.Kmalloc | src/memory/heap/kheap.c:24-27 | the kernel heap's allocation, as a pointer into the pool |
| Kheap.Machine.Kzalloc | src/memory/heap/kheap.c:29-37 | table, memory and pointer after allocating and clearing byte by byte; nothing changes on failure |
| Kheap.Machine.Kfree | src/memory/heap/kheap.c:40-43 | frees the chain at the pointer's block |
| PageTable.EntryBits | src/memory/paging/paging.c:129-135 | OR-ing flags into an aligned address is addition, and masking recovers both parts |
| PageTable.FlagBits | src/memory/paging/paging.c:129-135 | an entry is present, writeable and open to user mode as the bits of its flags say |
| PageTable.WithEntryEffect | src/memory/paging/paging.c:182-206 | setting a page changes that page's entry and none of the other 2^20 - 1, and moves no table |
| PageTable.MapPagesEffect | src/memory/paging/paging.c:138-149 | mapping a range writes each of its pages once, also when it wraps around the address space, and no other page |
| PageTable.MapToAllOrNothing | src/memory/paging/paging.c:151-179 | succeeds exactly when the three addresses are aligned and ordered; then page virt + 4096k maps to (phys + 4096k) with the flags for every k and no other entry changes; otherwise no byte changes |
| Paging.PagingGetEntry | src/memory/paging/paging.c:209-218 | the entry of the page; for an unaligned address the entry of page 0 |
| Paging.PagingSet | src/memory/paging/paging.c:182-206 | an unaligned address is refused and changes nothing; otherwise exactly the page's entry becomes the value |
| Paging.PagingGetPhysicalAddress | src/memory/paging/paging.c:221-228 | translates as the two-level walk does, offset kept |
| Paging.PagingMap | src/memory/paging/paging.c:129-135 | refuses unaligned addresses; otherwise sets the one entry |
| Paging.PagingMapRange | src/memory/paging/paging.c:138-149 | no iteration can fail once the first has succeeded; all pages are mapped |
| Paging.PagingMapTo | src/memory/paging/paging.c:151-179 | result and memory of the all-or-nothing mapping |
| Paging.PagingNew4gb | src/memory/paging/paging.c:10-59 | takes 1026 one-block allocations and leaves memory with the new directory built in exactly those frames |
| Paging.PagingFree4gb | src/memory/paging/paging.c:68-77 | frees the tables that the directory names, the directory and the chunk, in that order |
| Directory.NewDirectoryFresh | src/memory/paging/paging.c:10-59 | a new directory has 1024 distinct tables, words that name them, always writeable and otherwise with the flags given, the identity entry with these flags for each of the 2^20 pages, and no frame outside its own is written |
| Directory.OrWriteableBits | src/memory/paging/paging.c:40 | OR-ing the writeable bit sets it and keeps all other flags |
| Directory.FreshIsIdentity | src/memory/paging/paging.c:10-59 | a new directory translates every 32-bit address to itself |
| Directory.SetAllKeepsFrames | src/memory/paging/paging.c:182-206 | any number of page updates leaves unchanged which frames dropping the directory frees |
| Directory.DropUndoesBuild | src/memory/paging/paging.c:68-77 | whatever was written to its tables meanwhile, dropping a new directory returns exactly the 1026 blocks it took and restores the table bit for bit |
| Directory.DropUndoesNew | src/memory/paging/paging.c:68-77 | dropping a new directory after any number of page updates returns exactly the 1026 blocks it took and restores the table bit for bit |
| Ledger.PagesAreBlocks | src/task/process.c:70 | the pages that an allocation maps are exactly the blocks its size is rounded to |
| Ledger.MallocCases | src/task/process.c:58-85 | the only three outcomes: no run of blocks, a full ledger with the table bit for bit as before, or chain, cleared memory, mapping and ledger slot together; the mapping never fails |
| Ledger.FreeCase | src/task/process.c:260-278 | freeing a held allocation unmaps its pages, empties its slot and frees its chain |
| Process.Process.FindFreeAllocationIndex | src/task/process.c:45-55 | the first empty slot, or the error when there is none |
| Process.Process.GetAllocationByAddr | src/task/process.c:98-105 | the first slot with the address, or none |
| Process.Process.AllocationUnjoin | src/task/process.c:108-115 | empties every slot with the pointer and no other |
| Process.Process.Malloc | src/task/process.c:58-85 | heap table, memory, ledger and result of the ledger's allocation |
| Process.Process.Free | src/task/process.c:260-278 | heap table, memory and ledger of the ledger's free; an unknown pointer changes nothing |
| Process.Process.TerminateAllocations | src/task/process.c:118-123 | frees what the non-empty slots hold, one after the other |
| Isolation.RemapEntry | src/task/process.c:70 | remapping a range of one process changes that process's entries of the range and no entry of any process otherwise |
| IsolationSteps.PartKeeps | src/task/process.c:475 | each allocation of a load keeps the invariant over heap, ledgers, structures and all directories, as a chain that no one else has |
| IsolationSteps.FillBytesEffect | src/loader/formats/elfloader.c:223-226 | reading a file to an address puts each of its bytes at its place and changes no other |
| IsolationSteps.PartBytes | src/task/process.c:475 | after an allocation of a load its block holds what was read and zeros behind it, and every other byte of memory is as before |
| IsolationSteps.MallocKeeps | src/task/process.c:58-85 | an allocation by any process keeps the invariant |
| IsolationSteps.ReleaseKeeps | src/task/process.c:260-278 | so does releasing what a slot holds |
| IsolationSteps.FreeIsRelease | src/task/process.c:260-278 | freeing a pointer is the release of its slot, or does nothing |
| IsolationSteps.WriteablePages | src/task/process.c:396-421 | directory word and table entry together admit user stores to a page if and only if it is in the stack window, its last segment is writeable, or, from the heap on, it is in an allocation of the process; it leads into the stack, the image or that allocation |
| IsolationSteps.StoreKeeps | src/task/process.c:361-421 | user stores, to the stack, the image and allocations, keep the invariant |
| IsolationLoad.SpawnMemoryFresh | src/task/task.c:229-252 | a new directory with program and stack mapped has 1024 distinct tables, all open to user stores, the loaded entry on each of the 2^20 pages, and no frame outside its own is written |
| IsolationLoad.SpawnKeeps | src/task/process.c:506-532 | a new process with its directory, program and stack keeps the invariant; its blocks are no one else's |
| IsolationLoad.LoadKeeps | src/task/process.c:463-532 | loading an ELF image or a flat file that is confined, all allocations of it in order, keeps the invariant |
| IsolationLoad.LoadIsConfined | src/task/process.c:369-421 | of all loads whose file can be mapped, a load leaves a process that can write nothing but its image and its stack if and only if the writeable pages of its headers lie in the file |
| IsolationContents.TakenSpares | src/task/process.c:463-499 | the allocations of a load write no frame but free ones |
| IsolationContents.LoadBytes | src/loader/formats/elfloader.c:223-226 | after a load byte i of the image is byte i of the file |
| IsolationFailures.FailedLoadKeeps | src/task/process.c:486-499 | so does a load that gives up before its task, which keeps what it took |
| IsolationFailures.FailedDrop | src/task/process.c:514-539 | when a header's end wraps a load fails in mapping, and dropping the directory then restores the heap's table, whatever had been mapped |
| IsolationFailures.FailedMapIs | src/task/process.c:514-539 | such a load leaves heap and structures as they were before its task was taken, and no page table of any process is written |
| IsolationFailures.FailedMapKeeps | src/task/process.c:514-539 | so it keeps the invariant |
| IsolationCopy.DirectoryIsHeld | src/task/task.c:141-183 | what copying a string relies on, directory and tables of the task outside the free blocks, holds for every process |
| IsolationCopy.CopyKeeps | src/task/task.c:141-183 | what copying a string writes keeps the invariant when the caller's buffer lies in no directory, table, chunk or free block |
| IsolationCopy.CopyStringOf | src/task/task.c:141-183 | so copying a string from any process leaves heap and invariant as they were |
| IsolationLifetime.TerminateKeeps | src/task/process.c:118-123 | the loop over the slots keeps the invariant, empties the slots it has passed and changes no other process |
| IsolationLifetime.WhoGoes | src/task/process.c:176-197 | termination gives up exactly the directory and all chains of the process but its structure |
| IsolationLifetime.RetireKeeps | src/task/process.c:176-197 | freeing program, stack, directory and task of a process without allocations keeps the invariant for all others |
| IsolationRuns.EndInv | src/task/process.c:176-197 | terminating a process keeps the invariant and leaves the other processes and their translations as they were |
| IsolationRuns.SlotIsChain | src/task/process.c:58-85 | in every reachable state a ledger entry names a live heap chain of exactly ceil(size / 4096) blocks |
| IsolationRuns.PartIsChain | src/task/process.c:463-532 | so does each part of a process: the stack has four blocks, the image holds the program's pages, both are where the process says |
| IsolationRuns.AllocationsDisjoint | src/task/process.c:58-85 | no page lies in two allocations, of one process or of two |
| IsolationRuns.ProcessesDisjoint | src/task/process.c:463-532 | no frame is allocation, stack or image of two processes; each such frame is a taken block, outside every process, ELF and task structure, page table, directory and chunk |
| IsolationRuns.WriteableIsOwned | src/task/process.c:396-421 | over all 2^20 pages directory word and table entry let a process write exactly its stack window, the pages whose last segment has bit 1 of p_flags set, and its live allocations; each such page leads to memory of its own, those of allocations to themselves |
| IsolationRuns.StoreIsConfined | src/task/process.c:361-421 | a user store changes at most the byte its address translates to, only memory of the storing process, no byte of another and no translation |
| IsolationEffects.RunSnoc | src/task/process.c:58-197 | a run is its actions, one after the other |
| IsolationEffects.MallocGrants | src/task/process.c:58-85 | when blocks and a slot are there, the first empty slot gets the address of the lowest free run and the size, exactly that chain becomes live, and no other slot, process or structure changes |
| IsolationEffects.MallocMaps | src/task/process.c:70 | its pages lead to themselves and are writeable for the process; all other entries of all processes stay |
| IsolationEffects.MallocClears | src/task/process.c:60 | its bytes read 0; every other byte outside the process's page tables stays |
| IsolationEffects.MallocFindsNoRoom | src/task/process.c:60-63 | when no run of blocks fits nothing changes |
| IsolationEffects.MallocFindsNoSlot | src/task/process.c:64-68 | when the ledger is full only free blocks are written |
| IsolationEffects.MallocOfNothing | src/task/process.c:58-85 | a request of size 0 takes no block and keeps the invariant if and only if the ledger is full or the last block is taken; otherwise a slot names a free block |
| IsolationEffects.FreeEmpties | src/task/process.c:260-278 | freeing a held pointer empties its slot and drops its chain, and no other slot, process or structure changes |
| IsolationEffects.FreeUnmaps | src/task/process.c:269 | its pages are not present any more; all other entries of all processes stay |
| IsolationEffects.FreeSparesMemory | src/task/process.c:260-278 | every byte outside the process's page tables stays |
| IsolationEffects.FreeOfUnknown | src/task/process.c:263-266 | freeing a pointer that no slot holds changes nothing |
| IsolationEffects.StoreStores | src/task/process.c:361-421 | a store to a page the process may write is read back at its translation and changes no other byte; any other store changes nothing |
| IsolationProcesses.LoadMakes | src/task/process.c:463-532 | a load adds one process whose program lies at its image and whose stack at its stack's chain, with an empty ledger; all processes and structures before it stay |
| IsolationProcesses.LoadFills | src/loader/formats/elfloader.c:223-226 | its image holds the file, byte by byte |
| IsolationProcesses.LoadMaps | src/task/process.c:396-421 | each of its 2^20 pages has the entry of stack, last segment or identity, and the directory leaves it to the entry whether it may be written |
| IsolationProcesses.LoadedSegmentReads | src/task/process.c:376-389 | a byte of a well-formed segment, read through the new directory at p_vaddr + k, is the file's byte at p_offset + k, present, open to user mode and writeable exactly if bit 1 of p_flags is set, unless stack or a later segment has its page |
| IsolationProcesses.LoadedFlatReads | src/task/process.c:361-365 | byte k of a flat file is read at 0x400000 + k |
| IsolationProcesses.LoadLive | src/task/process.c:463-532 | a load adds five chains, six for a flat file, and 1026 for the directory; all live chains stay |
| IsolationProcesses.LoadsSpare | src/task/process.c:463-540 | no load, successful or not, writes a byte outside the free blocks |
| IsolationProcesses.FailuresLeave | src/task/process.c:486-540 | a load that fails changes no process and leaves exactly the chains it took, but for the task's when mapping failed |
| IsolationProcesses.TerminateGivesBack | src/task/process.c:176-197 | termination removes the process and exactly the chains it held, its allocations, directory, page tables, chunk and parts but the structure; every other chain and process stays |
| IsolationProcesses.TerminateSparesMemory | src/task/process.c:176-197 | it writes nothing but the process's page tables |
| IsolationOutcomes.FreedIsUnmapped | src/task/process.c:260-278 | after a free every page of the allocation is not present, its slot is empty and its chain is gone from the heap |
| IsolationOutcomes.StepKeepsUnmapped | src/task/process.c:58-85 | a page that is not present in a directory becomes present only by an allocation of the process |
| IsolationOutcomes.FreedStaysUnmapped | src/task/process.c:260-278 | a freed page stays not present for its process through any run in which it is not granted to it again |
| IsolationOutcomes.FailedMallocLeavesNoTrace | src/task/process.c:58-85 | an allocation that finds the ledger full or no run of blocks leaves heap, ledgers and every translation of every process as they were |
| IsolationOutcomes.RunStructures | src/task/process.c:475 | any run adds one process structure of three blocks for each load tried, and none ever goes; the chains nobody can free grow by one for each ELF image, three for each flat file, all that a load took that gave up, and all but the task of one that failed in mapping |
| IsolationOutcomes.NoProcessLeft | src/task/process.c:176-197 | with no process left the live chains are exactly those that nothing frees |
| IsolationOutcomes.WhatRunsLeave | src/task/process.c:176-197 | after any run from boot that ends without processes: how many chains are live, that the three-block structures of all loads are among them, and that the heap is all free if and only if no load was tried |
| IsolationOutcomes.EveryRunIsSafe | src/task/process.c:58-123 | after any run from an empty heap whose loads are confined, each process can write exactly its own pages, which lead to its own memory, and no two processes share any |
| IsolationWitness.OneProgramLeavesItsStructure | src/task/process.c:176-197 | every ELF image that fits can be loaded after boot and terminated again, and then exactly one chain of three blocks is live |
| ElfLoader.FoldFindsExtremes | src/loader/formats/elfloader.c:128-179 | after each of the headers, intermediate ones included, base and physical base are those of the last of the lowest loadable segments so far, if and only if every loadable header that is lowest so far is loaded where it is linked, and no other one follows a lowest at 0 unless it says the same |
| ElfLoader.EndIsHighest | src/loader/formats/elfloader.c:137-143 | virtual and physical end are those of the last of the segments that end highest, if and only if no segment runs over the end of the address space |
| ElfLoader.WriteableBit | src/task/process.c:381-383 | the segment's flag test is bit 1 of p_flags |
| ElfLoader.PlainFits | src/loader/formats/elfloader.c:128-146 | segments that are loaded where they are linked, none at 0, in any order, meet the condition on the base |
| ElfLoader.LaterHeaderRepairs | src/loader/formats/elfloader.c:132-135 | two headers for which the base is wrong after the first and right after the second |
| ElfLoader.UnequalAddressesMislead | src/loader/formats/elfloader.c:132-135 | two headers for which, with unequal addresses, the base found is the address of neither and the physical base that of the wrong one |
| ElfLoader.ElfFile.ProcessPtLoad | src/loader/formats/elfloader.c:128-146 | one step of the fold on the four bounds |
| ElfLoader.ElfFile.ProcessPheaders | src/loader/formats/elfloader.c:162-179 | the loop computes the fold over all headers and never fails |
| ImageMap.MapSegmentEffect | src/task/process.c:376-389 | for any header: mapping fails if and only if its end wraps to before its start, and then changes nothing; otherwise it sets exactly its pages, wrapped around the address space, to the frames its file bytes lie in, present, open to user mode and writeable exactly if bit 1 of p_flags is set |
| ImageMap.UnwrappedPages | src/task/process.c:376-389 | a segment that does not wrap takes as many pages from that of its address on as there are frames from that of its first byte to its end, and gives them those frames, aligned to each other or not |
| ImageMap.MapElfEffect | src/task/process.c:369-392 | for any headers: it fails if and only if one of them does; otherwise each page has the entry of the last segment on it, and untouched pages their old one; no frame but the tables is written |
| ImageMap.MapElfStops | src/task/process.c:386-388 | headers behind one that fails change nothing |
| ImageMap.MapBinaryEffect | src/task/process.c:361-365 | mapping a flat file succeeds and sets exactly its pages, from 0x400000 on |
| ImageMap.MapMemoryEffect | src/task/process.c:396-421 | mapping program and stack succeeds if no header wraps, moves no table, and gives every page of the directory the entry of stack, last segment or before, in that order |
| ImageMap.LoadedWrites | src/task/process.c:369-421 | over pages that are not writeable, a page is so afterwards if and only if it is in the stack window or its last segment is writeable, and then it leads into the stack or to the segment's frame |
| ImageMap.MapMemoryTables | src/task/process.c:396-421 | an image fails to map if and only if one of its headers wraps; whether mapping a program succeeds or fails on the way, nothing but entries of the directory's tables is written |
| ImageMap.LoadedStaysInFile | src/task/process.c:369-421 | every writeable page off the stack leads into the blocks of the file if and only if the frames of all pages whose last segment is writeable lie there |
| ImageMap.SegmentsStayInFile | src/task/process.c:376-389 | for well-formed segments on disjoint pages above the stack that is so if and only if every writeable segment that has pages ends, with its size in memory, inside the file |
| ImageMap.LargeBssLeavesFile | src/task/process.c:376-389 | a writeable segment of three pages in a file of two blocks: mapping succeeds, and its third page is writeable in the frame behind the file |
| ImageMap.LoadedImageTranslates | src/task/process.c:396-421 | each byte of a segment translates to elf_memory + p_offset + (v - p_vaddr), present, open to user mode and writeable exactly if bit 1 of p_flags is set, each byte of the stack window into the stack, every other page as before |
| ImageMap.LoadedBinaryTranslates | src/task/process.c:361-365 | a flat binary is mapped from 0x400000 on, in front of its stack, and the rest translates as before |
| ImageMap.ProcessMapElf | src/task/process.c:369-392 | result and memory of mapping the headers in order up to the first failure |
| ImageMap.ProcessMapMemory | src/task/process.c:396-421 | result and memory of mapping program and stack; the stack is skipped when the program failed |
| CopyString.CopyIn | src/task/task.c:161-165 | the copy through the task's directory fills only the scratch frame, with the string as the task sees it, cut and terminated |
| CopyString.CopyOut | src/task/task.c:177 | the copy to the caller's buffer carries the bytes up to the terminator and touches nothing outside the buffer |
| CopyString.Restored | src/task/task.c:157-170 | writing the saved entry back undoes the temporary mapping: the directory is as before |
| CopyString.SourceSeen | src/task/task.c:161-165 | while the scratch page is mapped the task still sees its string as before the call |
| CopyString.CopyStringFromTask | src/task/task.c:141-183 | leaves no trace: heap table, translations and flags are as before; the result tells the three cases apart; the buffer gets byte for byte what memory holds where the task's directory translates the string, cut to max - 1 bytes, and a terminator |
| DiskStream.Disk.ReadBlock | src/disk/disk.c:57-65 | the buffer holds the sector, and one more read is counted |
| DiskStream.WrittenBytes | src/disk/streamer.c:49-52 | copied bytes land each at its index and nothing else changes |
| DiskStream.DiskStream.Seek | src/disk/streamer.c:21-25 | moves the position and touches nothing else |
| DiskStream.DiskStream.Read | src/disk/streamer.c:29-62 | out[at + i] is image[pos + i] for each i < total, the rest of the buffer stays, the position ends at pos + total, and exactly (pos % 512 + total) / 512 + 1 sectors are read |
| Fat16.ChunkExact | src/fs/fat/fat16.c:473-490 | a chunk reads the file's bytes if and only if it stays in its cluster or the file goes on in the next cluster of the disk |
| Fat16.ReadExact | src/fs/fat/fat16.c:463-503 | the chunked read takes every byte from its place in the file if and only if each chunk that leaves its cluster runs on into the file's next one |
| Fat16.AlignedRunsOn | src/fs/fat/fat16.c:483 | reads that start on a cluster boundary, and reads inside one cluster, meet that condition |
| Fat16.CodeByte | src/fs/fat/fat16.c:463-503 | byte x of any chunked read comes from the cluster x / size behind the first, as far into it as the read starts in its cluster and x lies in its chunk |
| Fat16.EntryPlace | src/fs/fat/fat16.c:395-397 | an entry is looked up at 512 * reserved * 2 * cluster modulo 2^32, read as a signed word |
| Fat16.ChainGoesOn | src/fs/fat/fat16.c:416-460 | the chain goes on with the 16 bits there, low byte first, and ends if and only if they are one of six values |
| Fat16.ClusterPlace | src/fs/fat/fat16.c:483-490 | cluster 2 starts at the sector behind the root directory and each next one a cluster's sectors later |
| Fat16.ChainByte | src/fs/fat/fat16.c:416-460 | byte p of the concatenated clusters is the image's byte where the chain puts it |
| Fat16.ReadIsSlice | src/fs/fat/fat16.c:463-510 | such a read finds its clusters exactly when the first (offset + total - 1) / clusterSize successors hit no stop value, and then reads bytes offset .. offset + total of the concatenated chain |
| Fat16.PiecesAreSlice | src/fs/fat/fat16.c:741-759 | n records that each start on a boundary or stay in a cluster are one slice of the file |
| Fat16.ReadFromTheMiddleMisreads | src/fs/fat/fat16.c:741-759 | a file in clusters 2 and 5 whose 512 bytes from position 256 are read with 256 bytes of cluster 3 |
| Fat16.Reader.GetFatEntry | src/fs/fat/fat16.c:388-412 | the 16-bit value at the multiplied position that the code seeks to |
| Fat16.Reader.GetClusterForOffset | src/fs/fat/fat16.c:416-460 | the cluster that many successors ahead, or the error exactly when a stop value comes first |
| Fat16.Reader.ReadInternalFromStream | src/fs/fat/fat16.c:463-503 | succeeds exactly when the chain is long enough, and then writes the bytes of the chunk positions at the right place and nothing else |
| Fat16.Read | src/fs/fat/fat16.c:741-759 | the number of records when all are there, and then, for records that start on a boundary or stay in a cluster, out[j] is byte pos + j of the file; the rest of the buffer stays; the error otherwise |
| TaskList.AfterIndex | src/task/task.c:69-76 | k switches lead k places on, modulo the number of tasks |
| TaskList.RoundRobin | src/task/task.c:107-122 | from any of n tasks, n switches reach every task exactly once and come back |
| TaskList.TaskList.TaskNew | src/task/task.c:29-67 | the new task is last; the current task changes only if it is the first; right back links stay right |
| TaskList.TaskList.TaskGetNext | src/task/task.c:69-76 | in a whole chain the cyclic successor of the current task; what the links say while a removal is under way |
| TaskList.TaskList.NextIsSuccessor | src/task/task.c:69-76 | following the current task's link, or the head at the end, is the cyclic successor in the order of the list |
| TaskList.TaskList.TaskNext | src/task/task.c:107-122 | the current task becomes its cyclic successor, and the list stays a chain |
| TaskList.TaskList.Relink | src/task/task.c:79-95 | which links, ends and current task the four updates change, for any back link |
| TaskList.TaskList.TaskListRemove | src/task/task.c:79-95 | the other tasks stay a chain in their order if and only if the removed task's back link was right; current moves only if it was removed, to the cyclic successor; every back link stays right except the successor's, which still names the removed task |
| TaskList.RemovingTwiceBreaks | src/task/task.c:79-95 | three tasks from which removing the second and then the third leaves a broken chain |
| Keyboard.PushAppends | src/keyboard/keyboard.c:67-81 | a push into a ring with room appends to its queue; a null character is dropped |
| Keyboard.PopRemoves | src/keyboard/keyboard.c:84-103 | a pop answers null if and only if the queue is empty, and otherwise removes the front |
| Keyboard.FullRingOverwrites | src/keyboard/keyboard.c:67-81 | a key pushed into a full ring overwrites the oldest character and is the next one popped |
| Keyboard.StepKeepsFifo | src/keyboard/keyboard.c:67-103 | each event keeps, for every process, what was sent equal to what was received followed by what waits |
| Keyboard.RunIsTyped | src/keyboard/keyboard.c:67-103 | over any run the histories are those of the events: sent is what was typed while the process was in the foreground, received what pops answered while it was running |
| Keyboard.EveryRunIsFifo | src/keyboard/keyboard.c:67-103 | after any interleaving of keys, pops and switches without overflow, what the events say was typed for a process is what pops answered while it ran, in order, followed by what waits in its ring, and the next pop answers null exactly when nothing does |
| Keyboard.KeyboardBuffer.TailIndex | src/keyboard/keyboard.c:43-45 | a valid buffer position |
| Keyboard.KeyboardPush | src/keyboard/keyboard.c:67-81 | the ring of the process in the foreground makes the push step, or nothing happens |
| Keyboard.KeyboardPop | src/keyboard/keyboard.c:84-103 | the ring of the running task's process makes the pop step, or the answer is null |
| Splitting.TokensAreMaximalRuns | programs/stdlib/src/string.c:131-163 | the tokens are exactly the stretches without separators that cannot be extended, all of them, in order |
| Splitting.SplitUndoesJoin | programs/stdlib/src/string.c:131-163 | words joined by a separator split back into those words |
| Commands.Strncpy | programs/stdlib/src/string.c:52-65 | the text up to its terminator, cut to count - 1 bytes and terminated; bytes behind the terminator stay |
| Commands.Tokenizer.SkipDelimiters | programs/stdlib/src/string.c:131-144 | the first position that is no separator |
| Commands.Tokenizer.FindEnd | programs/stdlib/src/string.c:152-162 | the first separator behind the token becomes a terminator and the cursor goes behind it, or stops at the end of the text |
| Commands.Tokenizer.Strtok | programs/stdlib/src/string.c:121-164 | one search from the saved cursor, or from the argument only if the cursor is null: result, cursor and buffer exactly |
| Commands.ScannedSplits | programs/stdlib/src/string.c:121-164 | a call returns null if and only if no token is left; otherwise the text at the result is the first token and the tokens ahead of the cursor are the others |
| Commands.StaleCursorWins | programs/stdlib/src/string.c:121-130 | called for another line while words of the last are left, strtok returns the second word of the last line |
| Commands.PrintedWordsComeBack | programs/stdlib/src/peachos.c:14-15 | a command line printed from words that fits the buffer is parsed back into those words |
| Commands.LongLineIsCut | programs/stdlib/src/peachos.c:14-15 | of a line of 1024 bytes or more the words are those of its first 1024 bytes |
| Commands.OtherArguments | programs/stdlib/src/peachos.c:31-46 | the loop appends one element for each further word in order while allocations succeed |
| Commands.ParseCommand | programs/stdlib/src/peachos.c:7-49 | the list holds the words of the first 1024 bytes in order, each cut to 511 bytes, one per successful allocation; the cursor is null again if and only if no allocation failed, so that calls are independent splits |
| PathText.PiecesOfJoin | src/fs/pparser.c:37-61 | splitting at slashes undoes joining with slashes |
| PathText.JoinOfPieces | src/fs/pparser.c:37-61 | joining with slashes undoes splitting, and no piece holds a slash |
| PathText.ComponentsArePieces | src/fs/pparser.c:127-138 | the parts collected are the pieces before the first empty one |
| PathText.PartsOfPath | src/fs/pparser.c:103-147 | an accepted path is drive, `:/` and pieces joined by slashes; its parts are the longest run of non-empty pieces from the start |
| PathText.AcceptedPaths | src/fs/pparser.c:103-147 | a text is a path if and only if it has at most 108 characters and starts with digit, colon and slash; drive and parts are the digit and the pieces before the first empty one |
| PathText.EmptyPieceEnds | src/fs/pparser.c:127-138 | an empty piece ends the path whatever follows, so a slash at the end is ignored |
| PathText.ParseUndoesPrint | src/fs/pparser.c:103-147 | parsing a printed path of at most 108 characters gives back drive and parts |
| PathParser.DriveByPath | src/fs/pparser.c:14-26 | the digit of a well-formed path, the error for any other |
| PathParser.GetPathPart | src/fs/pparser.c:37-61 | a cleared block holding the terminated part, or null with the heap table as before for an empty part; the cursor passes one slash |
| PathParser.ParsePathPart | src/fs/pparser.c:63-81 | one part more in two new blocks, hung behind the last; no other frame changes |
| PathParser.PartsGrow | src/fs/pparser.c:63-81 | adding a part leaves the texts, nodes and links of the parts before it intact |
| PathParser.PartsRead | src/fs/pparser.c:63-81 | following the links in memory meets the texts of the parts in order and then null |
| PathParser.CreateRoot | src/fs/pparser.c:28-34 | a block with the drive number and no parts |
| PathParser.Parse | src/fs/pparser.c:103-147 | a bad path gives null and changes nothing; any other takes one block and two more for each part, gives the temporary one back, and leaves a drive and a list that, followed link by link in memory, has the parts as texts |
| PathParser.Free | src/fs/pparser.c:83-95 | walks the list in memory and frees text and node of each part in order and the root last |
| PathParser.FreeUndoesParse | src/fs/pparser.c:83-147 | freeing a parsed path restores the heap table to its state before the parse, bit for bit |
| Itoa.DecimalUnique | src/string/string.c:118-143 | a number has one decimal text, without leading zeros and with a sign for negatives only |
| Itoa.Itoa | src/string/string.c:118-143 | for every 32-bit integer, the minimum included, the text reads back as the integer, is terminated and lies inside the 12 bytes |

## Left out

Weaker contracts and conditions taken over from the code:

- Heap.Heap.MallocTotal: asks for a request that the search answers inside the table, because the code marks blocks beyond the table otherwise (src/memory/heap/heap.c:99); HeapTable.SafeExact says exactly when, HeapTable.ShortTailIsGranted shows one that is not.
- Heap.Heap.Malloc: asks for the same.
- Heap.Heap.Free: addresses below the pool, for which the code computes a negative block and clears bytes in front of the table, are excluded.
- Kheap.Machine.Kmalloc: asks for a request that is answered inside the table.
- Kheap.Machine.Kzalloc: sizes above 2^32 - 4096 are excluded, because their rounding wraps to no block while the clearing would run over the whole address space.
- Kheap.Machine.Kfree: pointers for which the block is negative are excluded.
- Paging.PagingNew4gb: asks for 1026 free blocks, because the code uses its allocation results unchecked.
- PathParser.Parse: asks for two blocks per part and two more, because the code uses its allocation results unchecked; the path itself is an immutable text outside the heap.
- IsolationSteps.MallocKeeps: asks for a positive size; IsolationEffects.MallocOfNothing says exactly when size 0 breaks the invariant.
- Process.Process.Malloc: asks for a request that is answered inside the table and for a size whose rounding does not wrap.
- Process.Process.TerminateAllocations: passes over empty slots, because the code calls `process_free` on them too and so reaches `kfree(0)`, whose block index lies below the table (src/task/process.c:118-123).
- Process.Process.Free: does not cover a null pointer while a slot is empty, for the same reason.
- IsolationLifetime.TerminateKeeps: passes over empty slots, as Process.Process.TerminateAllocations does.
- IsolationLoad.LoadKeeps: asks for room for what the code takes unchecked (directory, ELF structure, file), for a program linked below the heap, and for writeable pages that lie in the file, which by IsolationLoad.LoadIsConfined is what confines it. Loads that fail in `task_new` are not modelled. What a segment finds behind its file bytes is not stated: the code does not clear it.
- IsolationOutcomes.EveryRunIsSafe: is about runs whose loads meet that condition.
- IsolationOutcomes.WhatRunsLeave: its runs do not include loads that fail in `task_new` or programs linked over the heap.
- IsolationCopy.CopyKeeps: asks for a buffer apart from the kernel's page structures and the free blocks.
- IsolationCopy.CopyStringOf: asks for the same, and for a positive `max`.
- IsolationRuns.EndInv: passes over empty slots, as IsolationLifetime.TerminateKeeps does.
- CopyString.CopyStringFromTask: what arrives is stated for strings that avoid the scratch page, its frame and the page table with its entry, all of which the code changes while it copies; `max` of 0 or less is excluded.
- Fat16.Reader.GetFatEntry: positions that leave the signed 32-bit range are excluded.
- Fat16.Reader.GetClusterForOffset: chains with such positions are excluded.
- Fat16.Reader.ReadInternalFromStream: clusters whose byte positions leave the signed 32-bit range are excluded; "successor" is what `fat16_get_fat_entry` reads at its multiplied position (src/fs/fat/fat16.c:397), not the FAT specification's entry, and the stop values are the code's.
- Fat16.Read: records with such clusters are excluded.
- Keyboard.EveryRunIsFifo: does not cover more than 1024 outstanding characters, where the code overwrites unread ones (Keyboard.FullRingOverwrites).
- Commands.ParseCommand: asks for a null cursor; after a failed allocation the cursor points into a dead stack buffer, whose later contents are not modelled. The delimiter string and the command are texts in arrays of their own.
- TaskList.TaskList.TaskNew: the out-of-memory path, which frees a task that was never linked, is not modelled.

Not part of the model:

- Port I/O, ATA polling, the real-time clock, CR3/CR0 and segment register loads and all assembly; the disk is a total map from sector to 512 bytes, `paging_switch` the choice of a directory.
- Page faults of the kernel: a read through a non-present entry reads the frame the entry names. User stores in the runs do fault.
- Confinement of user reads: the code maps all of memory readable into every process, so there is none.
- The heap's table and the tasks' links are Dafny objects apart from the memory array, so that no store can reach them; in the runs process, ELF and task structures are heap chains whose contents are not modelled.
- Heap blocks taken in the runs by anyone but loads and `process_malloc`: the kernel's own directory at boot, what the file system takes while it opens and reads a file, and a program's arguments. A run starts from a pool that is all free.
- The twelve process slots, `process_switch_to_any` and its panic when the last process is gone, and which process runs.
- Whole-run invariants of the back links of the task list: the code does not keep them.
- Interrupt dispatch, the system call table, GDT and IDT encodings: table look-ups and single encodings.
- Terminal, shell, video, `keyboard_backspace`, caps lock and line editing.
- FAT16 directory loading and path walk, file descriptors, `fat16_seek`, `fat16_stat`, `fat16_close`.
- Validation of ELF headers other than the program header fold.
- The remaining string functions; `strncpy` of the kernel's own string.c is part of CopyString.
