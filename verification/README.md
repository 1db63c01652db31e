# Kalix kernel: memory, address spaces and processes in Dafny

This project models the layer of the Kalix kernel that hands out physical memory, builds page tables,
loads ELF files into new address spaces and switches between them, together with three smaller loops of
the same kernel (number printing, the hexadecimal page dump, the mouse packet assembler), and proves
properties of that model. Check it with `dafny verify dfyconfig.toml` (Dafny 4.11).

## How the model is built

Every operation has a pure specification function on values (a bitmap and all of RAM; a heap; page
tables in RAM; scheduler state) and, where the C code loops or writes memory in place, a method of a class
with the same fields that is proved to compute exactly that function. The guarantees are lemmas about the
functions, most of them about whole runs.

| file | models |
|---|---|
| `Words.dfy`, `Memory.dfy` | 32- and 64-bit values, the C `\|`, RAM as bytes, little-endian words, memset and memcpy |
| `Bitmap.dfy`, `Pmm.dfy` | the block bitmap packed into bytes, first fit, release, runs of requests |
| `Boot.dfy` | construction of the bitmap from the memory map, and what the booted allocator does to the bitmap's own blocks |
| `MapInRam.dfy` | the same manager with its bitmap inside the memory that it accounts for |
| `Slab.dfy`, `SlabRuns.dfy`, `SlabAlignment.dfy` | the 64-byte object allocator, its runs, and its header lookup as written |
| `Vmm.dfy`, `Spaces.dfy`, `KernelHalf.dfy` | four-level page tables, the address spaces they stand for, and the kernel's half of each |
| `Elf.dfy`, `Loader.dfy`, `Process.dfy`, `Processes.dfy`, `LoaderLimits.dfy`, `FileLimits.dfy` | run_elf: layout, loops, what a loaded process sees, many processes, exact limits of a segment and of a whole file |
| `Scheduler.dfy`, `Tasks.dfy` | the clock handler, and the process tables in memory |
| `System.dfy` | run_elf calls and clock interrupts in any order on one machine |
| `Numbers.dfy`, `HexDump.dfy`, `Mouse.dfy` | uitoa and itoa, pagecontent, _mouse_int |

Memory is one physical space: the identity and higher-half views of the kernel are the same bytes. A store
outside RAM is dropped and a load there reads 0xFF. The bitmap is an array of its own, and a store past its end
is dropped; `MapInRam.dfy` has the manager on one memory, as the code has it, and says when the two are in step:
for one request exactly (`MapInRam.PmallocAgreesIff`), after the boot when its stores stay inside the bitmap
(`MapInRam.InitAgrees`), and over whole runs from a boot that kept the bitmap (`MapInRam.BootedRunsAgree`).
Register contents that the code leaves uninitialised (`ProcessState state` in run_elf), the entry past the end of
the memory map, the bytes behind a boot module and the bytes read from ports are parameters.

## Where the code falls short of its purpose

The code is modelled as it is written. Where that makes an intended property false, a lemma says exactly
when it holds.

- Mark and unmark take the bit from the first block of a region (`kernel/mem/pmm_mem.c:10`, `:13`). They are
  right exactly for regions of at most one block (`Bitmap.ColumnIsRegionIff`); a longer allocation leaves its
  second block free (`Pmm.ReservesIffSingle`), the next request can be served from inside it
  (`Pmm.MultiBlockHandedOutTwice`), releasing it may free someone else's block (`Pmm.ReleaseRestoresIff`),
  and of a larger usable region boot frees every eighth block only (`Boot.FreesRegionsIff`).
- `ALIGN` clears ten bits, not twelve (`kernel/mem/pmm_mem.h:6`). The block number survives
  (`Pmm.ToBlocksIsFloor`), the slab header lookup does not: the allocator does what was meant exactly while
  no more than sixteen objects are ever live at once (`SlabAlignment.AsWrittenFromEmpty`), and the seventeenth
  corrupts the sixteenth (`SlabAlignment.SeventeenthCorrupts`).
- `ALIGNUP` is `? 1 : 0` of a sum (`kernel/mem/pmm_mem.h:7`): right exactly up to one page (`Elf.AlignUpIff`),
  so a segment is mapped in place exactly when it is page-aligned and what it has behind its first page happened
  to be mapped there before (`LoaderLimits.MappedInPlaceIff`).
- Nothing keeps two segments, or a segment and the stack, off the same page; the later one unmaps the earlier.
  Of the files with one-page segments, run_elf leaves exactly those in place whose segments are page-aligned and on
  pages apart from each other and from the stack (`FileLimits.GoodFileIff`).
- With more file bytes than memory, the clearing memset of run_elf wraps and clears RAM
  (`LoaderLimits.StaysMappedIff`).
- The register frame is copied to the end of the stack's memory, but the highest stack page is mapped to
  its beginning; the two meet exactly for a 4096-byte stack (`LoaderLimits.FrameReachedIff`).
- pmm_init compares physical bounds with a higher-half pointer, so the region that holds the bitmap passes the
  test, which should keep it out, exactly when it is shorter than the higher-half offset (`Boot.HomePasses`); and
  the column of another region can spill over into the bitmap's blocks (`Boot.OtherColumnFreesBitmap`). The
  bitmap's own blocks all stay used exactly when the column of no passing region comes to one of them
  (`Boot.BitmapKeptIff`); where the passing regions are apart from the bitmap's, that is: exactly when its region
  is at least as long as the offset (or starts past the last bit) and no column spills over
  (`Boot.BitmapKeptApart`).
- With the usual offset and one usable region, the first one-block request after the boot is handed the first page
  of the bitmap and zeroes it (`Boot.FirstRequestTakesMap`), which frees every block whose flag was there
  (`MapInRam.HandedOutFreesAll`). Some run of one-block requests is handed a block of the bitmap exactly when the
  boot did not keep it (`Boot.HandsOutMapIff`); from a boot that kept it, no request, no run_elf and no interrupt
  ever frees or writes one (`Boot.RunsLeaveMap`, `System.BitmapUntouched`).
- pmm_init also reads one entry past the map (`Boot.HighestIff`): the bitmap then covers blocks where no RAM is
  exactly when that entry ends above the top of memory and so do the low 44 bits of its end, rounded down to
  32 KiB (`Boot.BootCoveredIff`).
  It rounds the bitmap down, so freeing the last region can clear bits behind it (`Boot.WritesInsideIff`); a top of memory that
  is a multiple of 32 KiB is safe (`Boot.WholeBytesInside`).
- A failed allocation returns 0 and nobody looks: tables and slabs then go to address 0
  (`Vmm.GetAllocNextUncheckedFailure`, `SlabRuns.SpmallocUncheckedFailure`).
- itoa truncates to 32 bits and drops the sign outside base ten (`Numbers.ItoaIff`).
- `kernel/tasks/tasks.h:3-11` names result 1 WRONG_MAGIC and result 2 WRONG_SIZE; run_elf returns 1 for a short
  file and 2 for a wrong magic byte. The model returns what run_elf returns.

## Model

| member | source | states |
|---|---|---|
| Pmm.ToBlocksIsFloor | kernel/mem/pmm_mem.h:6-8 | the block number of any address is its quotient by 4096, although only ten bits are cleared first |
| Bitmap.UnpackInjective | kernel/mem/pmm_mem.h:5 | a packed bitmap is determined by the blocks it marks, so equal sets of free blocks mean equal bytes |
| Bitmap.MaskIsShift | kernel/mem/pmm_mem.c:10-13 | the bit of column c is the value 2 to the c, as the shift makes it |
| Bitmap.ColumnVisits | kernel/mem/pmm_mem.c:9-14 | a block is in the changed column if and only if some turn of the loop, whose counter is 32 bits wide, comes to its byte, and its place in the byte is that of the first block |
| Bitmap.ColumnIsRegionIff | kernel/mem/pmm_mem.c:9-14 | for every 32-bit start and count, wrapping ones included, the blocks that the marking loops change are the blocks of the region if and only if it has at most one |
| Bitmap.ColumnBounds | kernel/mem/pmm_mem.c:9-14 | for a region that ends by block 2^32, the changed blocks never lie below it and at most one, a block given in closed form, lies above it |
| Pmm.PhysicalMemory.Mark | kernel/mem/pmm_mem.c:9-11 | the loop over packed bytes marks one column of the bytes the region spans, going on at block 0 when its 32-bit block number wraps, and changes no other block |
| Pmm.PhysicalMemory.Unmark | kernel/mem/pmm_mem.c:12-14 | the loop over packed bytes frees one column of the bytes the region spans, going on at block 0 when its 32-bit block number wraps, and changes no other block |
| Pmm.PhysicalMemory.InUse | kernel/mem/pmm_mem.h:5 | the packed bit test answers whether the block is in use |
| Pmm.PhysicalMemory.Allocate | kernel/mem/pmm_mem.c:15-36 | with the bitmap beside RAM, the scan with its running counters finds the first fit, marks from it, and zeroes its first page |
| Pmm.PhysicalMemory.Release | kernel/mem/pmm_mem.c:37-39 | release unmarks from the block of the address and leaves RAM alone |
| Pmm.PhysicalMemory.SetBytes | kernel/misc/utils.c:3-8 | after memset exactly the addresses counted up from the destination hold the value, even across the end of the address space |
| Pmm.PhysicalMemory.CopyBytesIn | kernel/misc/utils.c:67-73 | memcpy from a file leaves byte i of the source at destination plus i and nothing else changed |
| Pmm.PhysicalMemory.CopyBytes | kernel/misc/utils.c:67-73 | memcpy inside RAM is the ascending byte copy, overlap included |
| Memory.FillsVisited | kernel/misc/utils.c:3-73 | memset sets, and memcpy from a file fills, the addresses that a 64-bit pointer counts through from the destination on, and no other |
| Memory.WordBytes | kernel/mem/vmm_mem.c:35-38 | a word of a table is its eight bytes, least significant first |
| Pmm.PmallocFirstFit | kernel/mem/pmm_mem.c:15-36 | a request of any length gets the lowest run of free blocks, and fails with 0 and no change only if no run exists |
| Pmm.PmallocEffect | kernel/mem/pmm_mem.c:15-36 | a request of any length marks its first column, zeroes its first page only, and changes no other byte |
| Pmm.PmallocOne | kernel/mem/pmm_mem.c:15-36 | with the bitmap beside RAM, a one-block request takes exactly the lowest free block out of the free set and zeroes exactly its page |
| Pmm.ReservesIffSingle | kernel/mem/pmm_mem.c:9-36 | a successful request has all of its blocks reserved if and only if it asked for one; otherwise its second block stays free |
| Pmm.MultiBlockHandedOutTwice | kernel/mem/pmm_mem.c:9-36 | after a request for two or more blocks the next one-block request gets its second block, unless a lower one is free |
| Pmm.ReleaseRestoresIff | kernel/mem/pmm_mem.c:9-39 | releasing a fresh allocation restores the bitmap if and only if the last block of its column was free or inside the run |
| Pmm.ServeAccounted | kernel/mem/pmm_mem.c:15-39 | one request or release of single blocks keeps live blocks distinct and marked, and every other block as it was |
| Pmm.TakeMeans | kernel/mem/pmm_mem.c:15-36 | a one-block request enters the lowest free block in the books and takes it, and without one changes nothing |
| Pmm.GiveMeans | kernel/mem/pmm_mem.c:37-39 | the release of a live block frees it, takes it out of the books, and leaves every other block and RAM alone |
| Pmm.SingleBlockRuns | kernel/mem/pmm_mem.c:15-39 | with the bitmap beside RAM, over any run of single-block requests and releases live blocks are distinct and marked, other blocks keep their state and bytes, and giving everything back restores the bitmap |
| Pmm.HandsOutIff | kernel/mem/pmm_mem.c:15-39 | one-block requests can be handed exactly the blocks that were free at the start and within the scan |
| MapInRam.PmallocAgreesIff | kernel/mem/pmm_mem.c:9-36 | a request on the memory that holds the bitmap gives the same address, and leaves the same state as beside it if and only if zeroing its page clears no flag that is set once it is marked |
| MapInRam.HandedOutFreesAll | kernel/mem/pmm_mem.c:15-36 | when a request is handed a page of the bitmap, every block whose flag is in that page is free afterwards |
| MapInRam.SingleRunsAgree | kernel/mem/pmm_mem.c:9-39 | while the blocks of the bitmap are in use, every run of one-block requests and releases in the memory that holds the bitmap is in step with the one beside it |
| MapInRam.InitAgrees | kernel/mem/pmm_mem.c:40-66 | pmm_init in the memory that holds the bitmap leaves the flags that the rows on Boot describe and every other byte as it was, when its stores stay inside the bitmap |
| MapInRam.BootedRunsAgree | kernel/mem/pmm_mem.c:9-66 | from a boot that kept the bitmap and stayed inside it, every run of one-block requests and releases on the machine is in step with the model |
| MapInRam.Mark | kernel/mem/pmm_mem.c:9-11 | the loop on bytes of RAM has the specified effect, past the end of the bitmap too |
| MapInRam.Unmark | kernel/mem/pmm_mem.c:12-14 | the loop on bytes of RAM has the specified effect, past the end of the bitmap too |
| MapInRam.Allocate | kernel/mem/pmm_mem.c:15-36 | the scan of the flags in RAM, the marking and the memset compute the specified state and address |
| MapInRam.Initialize | kernel/mem/pmm_mem.c:40-66 | the four loops, on the memory that holds the bitmap, have the specified effect, stores past the bitmap included, at the place that `Boot.BitmapPlaced` describes |
| Boot.HighestIff | kernel/mem/pmm_mem.c:41-48 | reading one map entry too many gives the right top of memory if and only if that entry ends no higher |
| Boot.FreedExactly | kernel/mem/pmm_mem.c:57-64 | after pmm_init a block is free if and only if it lies in the column of a region that passes the test |
| Boot.FreesRegionsIff | kernel/mem/pmm_mem.c:57-64 | when the regions that pass share no block, the free blocks are the blocks of those regions if and only if none has two blocks in the bitmap, whatever the rest of the map is |
| Boot.BitmapKeptIff | kernel/mem/pmm_mem.c:50-64 | no block that holds the bitmap is free after pmm_init, wherever it was put, if and only if the column of no region that passes the test comes to such a block |
| Boot.BitmapKeptApart | kernel/mem/pmm_mem.c:50-64 | when no other passing region has a block of the bitmap, the bitmap is kept if and only if its own region is at least as long as the higher-half offset or has no block among the bitmap's bits, and the one block past no other passing region holds a part of it |
| Boot.OtherColumnFreesBitmap | kernel/mem/pmm_mem.c:50-64 | a map whose bitmap region is kept out as intended, and where freeing another region still frees a block of the bitmap |
| Boot.BitmapBlockFreed | kernel/mem/pmm_mem.c:50-64 | when the bitmap's region is shorter than the higher-half offset, the first block of the bitmap itself ends up free |
| Boot.WritesInsideIff | kernel/mem/pmm_mem.c:49-64 | all stores of the last loop of pmm_init are to bytes of the bitmap if and only if every passing region with a block ends within its eight blocks per byte |
| Boot.WholeBytesInside | kernel/mem/pmm_mem.c:41-64 | so it is whenever the top of memory is a multiple of 32 KiB below 16 TiB |
| Boot.BootCoveredIff | kernel/mem/pmm_mem.c:41-49 | where RAM ends with the map, all blocks that the booted allocator can hand out are RAM, as the later rows assume, if and only if the entry past the map, whatever it is, ends no higher or its end cut to 44 bits and rounded down to 32 KiB does not |
| Boot.HandsOutMapIff | kernel/mem/pmm_mem.c:15-66 | some run of one-block requests after the boot is handed a block of the bitmap if and only if one within the scan was left free; below 16 TiB, if and only if the bitmap was not kept |
| Boot.RunsLeaveMap | kernel/mem/pmm_mem.c:15-66 | from a boot that kept the bitmap, no run of one-block requests and releases frees, hands out or writes a block that holds it |
| Boot.FirstRequestTakesMap | kernel/mem/pmm_mem.c:15-66 | on a machine with one usable region and the usual offset, the first request after the boot is handed the first block of the bitmap |
| Boot.FindHighest | kernel/mem/pmm_mem.c:41-48 | the loop computes the maximum of the ends, the extra entry included |
| Boot.BitmapPlaced | kernel/mem/pmm_mem.c:50-56 | the bitmap goes to the first entry of type 1 whose length in bytes is at least its size, seen through the higher half with 64-bit wrap; with no such entry its pointer is 0 |
| Boot.HoldsMapMeans | kernel/mem/pmm_mem.c:49-56 | the blocks of the bitmap, which the rows below are about, are those that hold one of its bytes |
| Boot.InitExactly | kernel/mem/pmm_mem.c:40-66 | pmm_init as a whole, for every map: the bitmap has eight flags for each of as many bytes, in 32 bits, as the highest end has whole 32 KiB, and a block is free if and only if an entry of type 1 that starts above the end of the bitmap or ends below its start, as pointers, has it in its column |
| Boot.FindHome | kernel/mem/pmm_mem.c:50-56 | the loop gives the higher-half address of the first entry of type 1 whose length is at least the size asked for, and 0 if there is none |
| Boot.Initialize | kernel/mem/pmm_mem.c:40-66 | with the bitmap as an array beside RAM, where stores past its end are dropped, the four loops build the bitmap that `Boot.InitExactly` describes, for every map |
| Slab.NewSlabThreads | kernel/mem/pmm_mem.c:69-79 | first use threads exactly the 62 objects at offsets 72 to 3976 into one chain that ends in 0, sets the count to 62 and touches nothing else |
| Slab.PopKeeps | kernel/mem/pmm_mem.c:81-84 | with page alignment of the header, allocation from the list makes its head live, keeps the heap invariant and changes no byte of a live object |
| Slab.GrowKeeps | kernel/mem/pmm_mem.c:67-79 | with page alignment of the header, allocation on an empty list takes a page it did not own, keeps the heap invariant and changes no byte of a live object |
| Slab.FreeKeeps | kernel/mem/pmm_mem.c:86-95 | with page alignment of the header, freeing a live object keeps the heap invariant, page release and list drop included, and changes no byte of another live object |
| Slab.SlabAllocator.Take | kernel/mem/pmm_mem.c:67-85 | the loop and the stores of spmalloc, with the ten-bit alignment, have exactly the specified effect on RAM, bitmap and list head |
| Slab.SlabAllocator.Give | kernel/mem/pmm_mem.c:86-95 | the stores of spfree, with the ten-bit alignment, have exactly the specified effect on RAM, bitmap and list head |
| SlabRuns.StepSafe | kernel/mem/pmm_mem.c:67-95 | with page alignment, any step, one of the rest of the kernel included, keeps the invariant, hands out only objects that were not live, and writes no live object but the one named |
| SlabRuns.RunsSafe | kernel/mem/pmm_mem.c:67-95 | with page alignment, every run of allocation, release, writes by owners and steps of the rest of the kernel outside the slab's pages keeps an acyclic list of non-live objects of owned pages and headers equal to 63 minus the live ones |
| SlabRuns.PagesAtMostLive | kernel/mem/pmm_mem.c:88-92 | every owned page has a live object, so pages never outnumber live objects |
| SlabRuns.RunsReclaim | kernel/mem/pmm_mem.c:67-95 | with page alignment, a run from an empty heap that gave everything back has an empty list and leaves the bitmap as others left it, without others exactly as it was |
| SlabRuns.TakeLosesNothing | kernel/mem/pmm_mem.c:67-85 | allocation keeps every object of every owned page live or listed |
| SlabRuns.GiveLosesIff | kernel/mem/pmm_mem.c:86-95 | release loses free objects if and only if it gives back a page while the dropped list holds an object of another |
| SlabRuns.OnePagePartition | kernel/mem/pmm_mem.c:67-95 | with page alignment, while at most one page is owned, the free list and the live objects partition its 63 objects, under any order of allocation and release |
| SlabRuns.SpmallocUncheckedFailure | kernel/mem/pmm_mem.c:69-79 | on an empty list a block is taken if and only if one is free; otherwise the slab is built at address 0 |
| SlabAlignment.StepAgreesIff | kernel/mem/pmm_mem.c:81-94 | one step as written equals the page-aligned step if and only if its object lies in the first kilobyte of its page |
| SlabAlignment.AsWrittenIffPeak | kernel/mem/pmm_mem.c:67-95 | from a heap with at most one page in order, all steps of a run agree with the page-aligned ones if and only if never more than sixteen objects are live |
| SlabAlignment.AsWrittenFromEmpty | kernel/mem/pmm_mem.c:67-95 | the same for every run from a heap that owns no page |
| SlabAlignment.AsWrittenSafe | kernel/mem/pmm_mem.c:67-95 | the code as written keeps the invariant and gives its blocks back in every such run |
| SlabAlignment.SeventeenthCorrupts | kernel/mem/pmm_mem.c:81-84 | with sixteen live objects the next spmalloc decrements the last word of the sixteenth object, which is live |
| Vmm.SamePageIff | kernel/mem/vmm_mem.c:34 | two addresses have the same four table indices if and only if they are in the same virtual page |
| Vmm.WalkIs | kernel/mem/vmm_mem.c:34-43 | a translation step by step: the four eight-byte entries at the nine bits from bit 39, 30, 21 and 12 on, none if one is even, and the last frame with the low twelve bits of the address |
| Vmm.FrameIs | kernel/mem/vmm_mem.c:35-38 | the frame in an entry is the entry without its low twelve and its high twelve bits |
| Vmm.AlignKeepsIndices | kernel/mem/vmm_mem.c:34-41 | clearing ten bits of an address changes none of its table indices |
| Vmm.TableEntry | kernel/mem/vmm_mem.c:35-38 | a table entry built with three ors gives the table's address back under the code's mask and under the processor's |
| Vmm.LeafEntryFields | kernel/mem/vmm_mem.c:41-43 | the leaf entry carries exactly the aligned frame and the flags with the present bit added |
| Vmm.GetAllocNextGrows | kernel/mem/vmm_mem.c:35-38 | descending keeps the tables a tree of used pages and the new table is fresh, empty and hangs at the given entry |
| Vmm.GetAllocNextKeepsWalks | kernel/mem/vmm_mem.c:35-38 | descending changes no translation from any table that was there |
| Vmm.GetAllocNextUncheckedFailure | kernel/mem/vmm_mem.c:35-38 | with no block free the entry is made to point to address 0 |
| Vmm.MapBlockRefines | kernel/mem/vmm_mem.c:39-44 | with a free block for every table that is missing on the path, map_block gives the page exactly the requested entry, leaves every other page of this and of all other spaces, and the kernel half of every root, as they were, and takes exactly those blocks |
| Vmm.VirtualMemory.constructor | kernel/mem/vmm_mem.c:46-49 | the copied half starts 2048 bytes into the root in use |
| Vmm.VirtualMemory.NewRoot | kernel/mem/vmm_mem.c:24-29 | allocation, memset and memcpy together build the new root as specified |
| Vmm.VirtualMemory.NextTable | kernel/mem/vmm_mem.c:35-38 | the store and the second load of the entry return the table as specified |
| Vmm.VirtualMemory.Map | kernel/mem/vmm_mem.c:39-44 | three descents and one store have the specified effect on RAM and bitmap |
| Spaces.NewPml4Refines | kernel/mem/vmm_mem.c:24-29 | a new root maps nothing below the kernel half, carries the kernel's upper 256 entries, and changes no translation of another space |
| Spaces.NoSpaces | kernel/mem/vmm_mem.c:46-49 | before the first newpml4 the relation that the next row keeps holds with no spaces |
| Spaces.RunsRefine | kernel/mem/vmm_mem.c:24-44 | after any run of newpml4 and map_block, of any length, in which every call finds the blocks it needs, every low page of every space translates to the entry last mapped there or to nothing, every root's kernel half is what the kernel's table held at the start, and every page in use at the start has every byte it had |
| Spaces.TablesDisjoint | kernel/mem/vmm_mem.c:24-44 | a table page is reached from one root only and along one path only |
| Spaces.WalkPasses | kernel/mem/vmm_mem.c:34-41 | the tables that the row above is about are those on the way of a walk, and the last of them has its entry |
| KernelHalf.RunsKeepKernel | kernel/mem/vmm_mem.c:24-44 | over any such run every space translates every kernel address, large pages included, as the kernel's own table did at the start, if the kernel's tables were pages in use |
| KernelHalf.LowWalkFull | kernel/mem/vmm_mem.c:35-44 | below the kernel half the processor meets no large page: its walk is the one that the other rows are about |
| KernelHalf.FullWalkIs | kernel/mem/vmm_mem.c:24-29 | the walk that the rows on kernel addresses are about, step by step, bit 7 ending it at level 3 or 2 |
| KernelHalf.MapHighShared | kernel/mem/vmm_mem.c:35-44 | map_block on a kernel address whose tables are there gives every space that shares the way to it the entry, and changes no low translation and no root of any |
| Elf.AlignUpIff | kernel/mem/pmm_mem.h:7 | the macro counts the pages a size needs if and only if that is at most one page: it gives 1 for every size but 0 and one value near 2^64, for which it gives 0 |
| Elf.RefusalFirst | kernel/tasks/tasks.c:34-45 | run_elf refuses exactly the files that fail a check, with the number of the first check that fails |
| Elf.HeaderRoundTrip | kernel/tasks/tasks.h:19-39 | the fields read from a file that starts with a laid-out header are that header's |
| Elf.SegmentRoundTrip | kernel/tasks/tasks.h:40-49 | entry i of the program header table reads back as the segment laid out there |
| Elf.FrameWord | kernel/tasks/tasks.h:13-15 | a register frame copied byte by byte reads back word by word |
| Loader.NotLoaded | kernel/tasks/tasks.c:69-72 | an entry that is not of type 1, or has no memory, changes nothing |
| Loader.LoadedIs | kernel/tasks/tasks.c:69-82 | an entry of type 1 with memory, of any length, is mapped, and then the memory taken for it holds its file bytes and zeros behind them, and no other byte changes |
| Loader.SegmentPlaced | kernel/tasks/tasks.c:69-82 | a segment of type 1 with at most a page of memory gets a fresh page mapped, with the flags 3, at the page of its address and holding its bytes, and nothing else in any space changes |
| Loader.SegmentsPlaced | kernel/tasks/tasks.c:68-83 | the loop places every entry of type 1 that has memory, and outside their pages no translation changes |
| Process.RunElfLoads | kernel/tasks/tasks.c:33-91 | run_elf on a good file builds a space in which image and initial frame are in place, shares the kernel half, changes no low translation and no kernel half of an earlier space and no used page but tables, and puts no physical page behind two virtual ones |
| Process.RunElfReads | kernel/tasks/tasks.c:33-91 | run_elf on a good file, through the new page tables: every entry of type 1 reads as its file bytes and then zeros, in pages writable for the kernel only, and the saved stack pointer 0x7FFFF50 reads as the initial frame, 0x8000000 at word 8, the entry point at word 17 and 0x7FFFF50 at word 20, in a page for all |
| Process.IntactReads | kernel/tasks/tasks.c:52-84 | through its page tables such a process reads, for every entry of type 1, every file byte up to p_filesz and zero up to p_memsz, in pages with the low bits 3, and at 0x7FFFF50, in a page with the low bits 7, all 22 words of the initial frame: those not set are what they were |
| Processes.LoadsAccumulate | kernel/tasks/tasks.c:33-91 | however many good files are loaded, in the end every one of their processes is intact under a root of its own, no physical page is behind two pages, of one process or of two, and every root has the kernel half of the start |
| Processes.RootAccepted | kernel/mem/vmm_mem.c:16-22 | the root that run_elf records is never refused by write_cr3, for every file it accepts and in every state of memory |
| LoaderLimits.MappedInPlaceIff | kernel/tasks/tasks.c:75-78 | a segment below 2^47 is mapped where its bytes are copied if and only if it is page-aligned and what it has behind its first page was mapped there before; never when the second page was unmapped |
| FileLimits.TableInPlaceIff | kernel/tasks/tasks.c:68-83 | all segments of a table of one-page segments are mapped in place at the end of the loop if and only if all are page-aligned and no two are on one page |
| FileLimits.GoodFileIff | kernel/tasks/tasks.c:33-91 | of the accepted files with one-page segments, run_elf leaves exactly the good ones with every segment and the saved stack pointer mapped to where it put them |
| LoaderLimits.StaysMappedIff | kernel/tasks/tasks.c:79-80 | a one-page segment survives its own load if and only if it has no more file bytes than memory |
| LoaderLimits.StackMapped | kernel/tasks/tasks.c:53-66 | the stack loop maps the pages from 0x7FFF000 down, with 32-bit addresses, to the frames of the stack from the first one up, for a stack of any size below 4 GiB |
| LoaderLimits.FrameGoes | kernel/tasks/tasks.c:52-84 | for every accepted file and every stack size, the initial frame goes to the last 176 bytes of the memory taken for the stack, and the saved stack pointer is 0x7FFFF50 whatever the size |
| LoaderLimits.FrameReachedIff | kernel/tasks/tasks.c:53-84 | the saved stack pointer reaches the copied frame if and only if the stack is 4096 bytes |
| Tasks.TaskManager.RunFile | kernel/tasks/tasks.c:33-91 | the loops and copies of run_elf have the specified effect on memory, and a process is recorded exactly when the file is accepted |
| Tasks.TaskManager.PlaceSegment | kernel/tasks/tasks.c:69-82 | the body of the segment loop has the specified effect, and none for an entry that is not of type 1 or has no memory |
| Tasks.TaskManager.ClockHandler | kernel/tasks/tasks.c:17-32 | the handler updates counters, current process and cr3, and returns the stack, or panics on a root that alignment changes, as specified; with no process it returns the stack that it was given |
| Tasks.TaskManager.WriteCr3 | kernel/mem/vmm_mem.c:16-22 | an address that alignment changes, and no other, is refused with a panic that does not return and leaves no process runnable |
| Scheduler.StartsCounting | kernel/tasks/tasks.c:6-9 | at the start both counters, the current process and the number of processes are 0 |
| Scheduler.IdleTick | kernel/tasks/tasks.c:17-25 | a tick with no process returns the interrupted stack and changes only the counters |
| Scheduler.BusyTick | kernel/tasks/tasks.c:25-31 | a tick with processes goes from the last number to 1 and from any other to the next, loads that root and returns that stack, or panics if the root is no multiple of 1024 |
| Scheduler.RoundRobin | kernel/tasks/tasks.c:25-31 | after t ticks without loads the current process is ((process - 1 + t) mod n) + 1 |
| Scheduler.EachOnce | kernel/tasks/tasks.c:25-31 | any n consecutive ticks run each of the n processes exactly once |
| Scheduler.TableFilled | kernel/tasks/tasks.c:85-89 | over every interleaving of ticks and loads the table holds exactly the entered processes, in order |
| Scheduler.TickRunsEntered | kernel/tasks/tasks.c:25-31 | a tick returns on the stack of an entered process and leaves that same process's root in cr3 |
| Scheduler.TickCounters | kernel/tasks/tasks.c:22-24 | the slow counter is a tenth of the fast one over every interleaving of fewer than 2^64 ticks |
| Scheduler.TickCountersWrap | kernel/tasks/tasks.c:22-24 | the tick that wraps the fast counter breaks that relation |
| Scheduler.BoundedWait | kernel/tasks/tasks.c:25-31 | an entered process gets its turn within at most 99 ticks, however many loads come in between |
| System.Booted | kernel/mem/vmm_mem.c:46-49 | with no process and no space yet, the relation that the next rows keep holds |
| System.TickFinds | kernel/tasks/tasks.c:17-32 | a tick does not panic; with no process it returns the interrupted stack and leaves cr3; with one it leaves an entered process's root and stack pointer, under which its image, its initial frame, its entry point and every kernel translation of the start are in memory |
| System.EveryInterleaving | kernel/tasks/tasks.c:17-91 | over every interleaving of run_elf calls, refused files included, and clock interrupts, the process table has the accepted files in order, each intact under its own root with pages of its own, and no root's kernel half and no page in use at the start has changed |
| System.NeverPanics | kernel/tasks/tasks.c:17-91 | over every interleaving of run_elf calls on any files whatever, with any amount of memory, and clock interrupts, no interrupt panics |
| System.BitmapUntouched | kernel/mem/pmm_mem.c:40-66 | from a boot that kept the bitmap, no run_elf and no clock interrupt ever frees or writes a block that holds it |
| Numbers.NumeralUnique | kernel/misc/utils.c:46-66 | a value has one numeral without leading zeros in each base |
| Numbers.DigitsAre | kernel/misc/utils.c:27-33 | the digits are 0 to 9 and A to V |
| Numbers.UitoaText | kernel/misc/utils.c:46-66 | the text of uitoa is that numeral, and evaluates to the value, for every 64-bit value and base 2 to 32 |
| Numbers.Uitoa | kernel/misc/utils.c:46-66 | the buffer holds the text, a NUL, and beyond it what it held; a base out of range changes nothing |
| Numbers.ItoaIff | kernel/misc/utils.c:9-45 | itoa prints the signed numeral if and only if the value fits 32 bits, is not the least such value, and is not negative outside base ten |
| Numbers.ItoaMeans | kernel/misc/utils.c:9-45 | what itoa prints for every value: the numeral of the magnitude of its low 32 bits, signed, behind a minus sign if the value is negative and the base ten; for the least of them each digit as far below the character 0 as it should be above it |
| Numbers.Itoa | kernel/misc/utils.c:21-45 | the buffer holds the text, a NUL, and beyond it what it held; a base out of range changes nothing |
| Numbers.Reverse | kernel/misc/utils.c:12-20 | the in-place loop turns the given stretch round and leaves the rest |
| HexDump.DumpSize | kernel/mem/pmm_mem.c:98-129 | the dump of a page has 17408 characters |
| HexDump.DumpRoundTrip | kernel/mem/pmm_mem.c:97-129 | the two digits at the closed-form position of byte i read back as byte i, for the whole page |
| HexDump.DigitsOfByte | kernel/mem/pmm_mem.c:119-125 | the two characters at that position are the hexadecimal digits of the byte, high digit first |
| HexDump.Separators | kernel/mem/pmm_mem.c:103-126 | a space follows every byte, a newline stands before and a space after the label of each row, and a bar and a space before its ninth byte |
| HexDump.LabelIff | kernel/mem/pmm_mem.c:108-118 | a row's label reads as its address rounded down to sixteen, and as its address if and only if the page pointer is 16-aligned |
| HexDump.PageContent | kernel/mem/pmm_mem.c:98-129 | the buffer holds the dump, its NUL, and beyond it what it held |
| Mouse.StreamRefines | kernel/drivers/mouse.c:67-123 | feeding any byte stream from between packets moves the pointer as applying its whole three-byte packets does |
| Mouse.OnePacket | kernel/drivers/mouse.c:72-121 | three bytes are one packet; it is reported exactly when it is not discarded |
| Mouse.PacketMoves | kernel/drivers/mouse.c:72-121 | three bytes without overflow flag and with flag 3 add the second byte to x and take the third from y, less 256 where its sign flag and its top bit are set, brought into the screen, and set the three buttons to the low three flags; any other three leave the pointer alone |
| Mouse.GateClosed | kernel/drivers/mouse.c:67-71 | for the first 250 ticks no byte has any effect |
| Mouse.DiscardedLeavesNoTrace | kernel/drivers/mouse.c:76-91 | a discarded packet anywhere in a stream can be cut out without changing the outcome |
| Mouse.StaysOnScreen | kernel/drivers/mouse.c:103-116 | whatever bytes arrive, the pointer stays within [0, width] and [0, height] |
| Mouse.MouseDriver.Handle | kernel/drivers/mouse.c:67-123 | the handler's branches over its globals have the specified effect and result |

## Left out

- Boot.Initialize: models the bitmap as an array beside RAM; `MapInRam.Initialize` has it in RAM.
- Pmm.PmallocOne: and the other results on a bitmap beside RAM hold of the machine where `MapInRam.PmallocAgreesIff` and `MapInRam.BootedRunsAgree` say so; the layers above are given on a bitmap beside RAM only, with `System.BitmapUntouched`.
- Boot.FreesRegionsIff: takes the passing regions to end by 16 TiB, because past it pmm_unreg gets only the low 32 bits of their blocks; the methods, `Boot.FreedExactly` and `Boot.BitmapKeptIff` cover those too.
- Boot.BitmapKeptApart: takes the regions to end by 16 TiB; `Boot.BitmapKeptIff` is for every map.
- SlabRuns.RunsSafe: is stated for 4096-byte alignment; what the ten-bit alignment of the code makes of it is `SlabAlignment.AsWrittenFromEmpty`.
- System.EveryInterleaving: takes a whole run_elf as one step, and accepted files to be good and to find their blocks; stores by the running programs themselves, and by the interrupt stubs to their stacks, are not modelled.
- Process.RunElfLoads: assumes enough free blocks, because the code does not notice when they run out; the unchecked failure is stated by `Vmm.GetAllocNextUncheckedFailure`.
- Vmm.MapBlockRefines: is about addresses below the kernel half, and assumes a free block for each missing table, because the code does not notice when they run out.
- Spaces.RunsRefine: is about runs of mappings below the kernel half; one mapping in it is `KernelHalf.MapHighShared`, where the bootloader's tables lead to the page. Where they do not, the new table hangs in one root only.
- LoaderLimits.MappedInPlaceIff: does not cover a segment of more than a page that reaches the kernel half, where the mapping depends on the bootloader's tables.
- FileLimits.GoodFileIff: is about segments of at most a page with no more file bytes than memory; the copy of a longer one writes the pages behind its own, and what their tables hold then depends on the bytes of the file. One segment of that kind is `LoaderLimits.MappedInPlaceIff` and `LoaderLimits.StaysMappedIff`.
- Tasks.TaskManager.RunFile: does not model the write past the two tables by the hundredth process.
- Vmm.LeafEntryFields: `Vmm.MapBlockRefines` keeps the raw entry for any flags; the split into frame and flags is stated for flags below bit 10, the only ones used.
- Numbers.ItoaIff: takes `abs` of the least 32-bit integer to wrap around; in C it is undefined.
- Scheduler.BoundedWait: is about the time before a panic, which the roots of run_elf never cause (`System.NeverPanics`).
- Process.IntactReads: and System.TickFinds say nothing about resuming: the clock handler never saves the interrupted stack pointer, and the interrupt return pops a frame without the intno and ec fields that ProcessState has.
- Mouse.StreamRefines: starts between packets; a stream that is cut inside a packet while the tick gate is closed stays shifted.
- Boot modules are read-only byte streams; a module that lies in free memory is not modelled.
- Port input and output, interrupt controller and descriptor tables, the assembly stubs, and the TLB are left out: foreign effects.
- The framebuffer, fonts and every debug print, including those inside run_elf and clock_handler, are left out: user interface.
- The FAT32 and ramdisk code is left out: the repository calls it not functioning.
- The keyboard tables, `showpage`, `reboot`, the system call handler and the string helpers strcpy, strcat, strlen and strcmp are left out: easy members.
