# Verified models of the kernel's core data structures

This project models the pointer-heavy core of a RISC-V kernel in Dafny and proves that each fast form
agrees with a simple one.

| part | files | what it is proved against |
|---|---|---|
| Sv39 page tables | `Pte`, `PageTree`, `PageEffects`, `PageSpec`, `PageFree`, `PageCopy`, `PageNeed`, `PageTable`, `HardwareWalk` | a flat map from virtual page to leaf entry, and the processor's own walk |
| Flattened device tree | `FdtTree`, `FdtLaws`, `FdtCells`, `FdtOrder`, `FdtScan` | an encoder from trees to words |
| Radix tree | `RadixNodes`, `RadixTree`, `RadixLaws`, `RadixWalk` | a finite map, listed in index order |
| Dentry cache and path walk | `PathNames`, `Dentries`, `PathWalk`, `PathFate`, `PathResolve`, `PathRoundTrip` | reference counts as holders plus children; where a path leads, told by names alone |
| Slab allocator | `Bitmap`, `Slab`, `SlabAllocator` | the set of objects in use |
| Address spaces | `HeapDrop`, `Areas`, `HeapExample`, `Protect` | disjoint areas; the flat map of the page tables |
| Hash table | `HashNodes`, `HashTable` | a finite map; the set of nodes |
| Descriptors, pids, numbers | `FdTable`, `PidSteps`, `Pid`, `PrintNum` | lowest free slot; all interleavings of harts; reading back |

Structures the kernel updates in place are classes whose methods are proved against functions of the state.
Physical memory is a map from pages to words. `alloc_page`, `kmalloc` and `put_page` are contracts: fresh storage
or failure, and a call trace; whether memory is left is part of the state or an argument, so that failures have
exact conditions too. A `panic` is a precondition. Integer widths, wrap-around, sign extension and
truncation are written out where they matter.

## Where the code and its promise differ

Where a promise fails on some inputs, the model keeps the code as it is, says exactly on which inputs the promise holds,
and gives a concrete input on which it does not.

- The radix tree accepts index 64^height and stores it in slot 0 (`RadixLaws.InsertRefinesMap`, `RadixLaws.BoundaryLost`);
  growing the tree then changes lookups exactly when slot 0 is used (`RadixLaws.GrowthPreserves`). Indices 0 and 1 are
  refused by an empty tree (`RadixTree.Radix.CreatePath`).
- A device-tree node without `#address-cells` or `#size-cells` inherits that of its elder sibling instead of the default
  (`FdtCells.CellsAsSpecified`, `FdtCells.CellsInherited`).
- A path walk that takes ".." while the two innermost entries are both new drops the last reference to the parent before
  taking a new one, and in no other case (`PathFate.DanglesWhen`, `PathResolve.Walk`, `PathResolve.DanglingWalk`). It
  needs a file system whose lookup finds directories (`PathFate.NeverWithoutLookup`); the two in the repository leave
  that operation commented out (kernel/fs/ext4/ext4_inode.c:86, kernel/fs/ramfs.c:42).
- A copy of a page table that runs out of memory leaves earlier copy-on-write pages read-only in the source, loses the
  pages a private copy has made, and leaves `mapped_pages` counting entries of the discarded table. It runs out exactly
  when the tables and copies it needs are more than the pages there are (`PageTable.PageTables.Copy`,
  `PageNeed.CopyResidue`, `PageTable.FailedCopy`).
- Lowering the break hands a heap page that is mapped at its address to `put_page` twice, once through the unmapping and
  once itself (`HeapDrop.PutOnce`, `Areas.CutPutsOnce`, `HeapDrop.PutTwice`, `HeapExample.BrkPutsTwice`).
- The page array of an area covers it exactly up to 2^31 - 1 pages, because the count is an int32 (`Areas.PageCountCovers`,
  `Areas.HugeAreaIsNotCovered`).
- A protection change whose length cannot be rounded up without wrapping succeeds without looking at any area
  (`Protect.RangeMeant`, `Protect.GrantedWithoutAreas`).
- The bitmap of a slab starts at byte 36 of its page and the objects at byte 40, so for objects of 16, 32 and 64 bytes
  it runs into the first objects, and zeroing such an object when it is handed out marks others as free
  (`Slab.BitmapInline`, `Slab.WipedHarmless`, `Slab.WipedExample`). What is proved of whole runs of the slab allocator
  takes the bitmap as storage of its own: for the code it holds of the sizes from 128 bytes on.
- A slab of 2048-byte objects holds one object, so it never counts as empty and is never given up (`Slab.EmptyIff`).
- A node inserted into the hash table behind the cursor of a running expansion is lost when the expansion ends
  (`HashTable.Table.InsertThenFinish`, `HashTable.Table.Finish`, `HashTable.LostInsert`).
- While an expansion runs, a lookup misses the nodes already moved, so that a key in one of their buckets is reported
  absent and can be inserted again (`HashTable.Table.LookupDuring`, `HashTable.Table.Insert`, `HashTable.SameKeyTwice`).
- Closing a descriptor that was allocated but never installed leaves a hole below the allocation hint
  (`FdTable.ClosedSlots`, `FdTable.HoleBelowHint`).

## Model

| member | source | states |
|---|---|---|
| Pte.MakeTarget | include/kernel/mm/pagetable.h:44-52 | a stored entry decodes to the page asked for if and only if the permission argument has no bit above the flags that the frame number lacks; its flags are those given plus V |
| Pte.Repack | kernel/mm/mmap.c:447-453 | unpacking an entry and packing it again with other flags keeps the page |
| Pte.OffsetRoundTrip | kernel/mm/pagetable.c:275-279 | or-ing an offset into a page address keeps page and offset readable |
| PageTree.TableAtOwned | kernel/mm/pagetable.c:105-130 | the walk of any address lands on the table page that owns that place of that tree, at every level |
| PageTree.StoreLeaf | kernel/mm/pagetable.c:182-182 | storing a leaf entry changes the flat map at one page only, in one tree only, and keeps the tree-shape and separation invariant |
| PageTree.LinkTable | kernel/mm/pagetable.c:114-119 | linking a zeroed page as a new table changes no mapping of any tree and keeps the invariant |
| PageTree.NewRoot | kernel/mm/pagetable.c:30-44 | a zeroed page is a tree that maps nothing |
| PageTable.PageTables.PageWalk | kernel/mm/pagetable.c:91-131 | the place of the leaf entry, or NULL exactly when the address is out of range, or its leaf table is missing and, when allocating, memory is used up; which tables exist afterwards and how many pages are left is a function of before; no mapping of any tree changes, even when a walk that allocates stops half way |
| PageSpec.WalkedMeaning | kernel/mm/pagetable.c:105-124 | an allocating walk arrives if and only if there are pages for the tables its path lacks; then it has created those and no others, otherwise memory is used up and the leaf table still missing |
| PageSpec.TableThere | kernel/mm/pagetable.c:105-130 | a tree has a table for a place if and only if the walk finds one there |
| PageTable.PageTables.LookupPa | kernel/mm/pagetable.c:268-280 | the page of the flat map plus the offset inside the page, 0 when unmapped |
| PageTable.PageTables.MapPage | kernel/mm/pagetable.c:141-188 | sets exactly one page, or only its flags when it is already mapped to that frame; answer, map, tables and pages left are a function of before; mapped_pages moves with the size of the map |
| PageSpec.MappedMeaning | kernel/mm/pagetable.c:141-188 | a request is refused if and only if the address is out of range, the page is mapped to another frame, or its path lacks more tables than there are pages; a mapped page lacks none, so re-mapping it to its own frame never fails; a refusal changes no mapping |
| PageTable.PageTables.MapPages | kernel/mm/pagetable.c:190-212 | success is reported whatever the requests answered; the outcome is that of requesting the pages one by one |
| PageSpec.RangeMeaning | kernel/mm/pagetable.c:206-208 | each page of a range request ends up mapped to its frame, unless it was mapped elsewhere or memory ran out before its leaf table was there; every other page is as before |
| PageTable.PageTables.Unmap | kernel/mm/pagetable.c:217-263 | clears exactly the pages the byte range touches, releases each mapped page once in address order, and refuses exactly the ranges outside the address space |
| PageTable.PageTables.Run | kernel/mm/pagetable.c:141-263 | every run of map and unmap requests has the answers and the outcome of the run on the abstract table; with a page left at the end, or two per request at the start, those of the run on the flat map; mapped_pages changes by the change in mapped pages |
| PageSpec.RunsAsFlat | kernel/mm/pagetable.c:141-263 | on a run with a page left, or with two pages per request, exactly conflicts and addresses out of range are refused, and the map is that of the same run on a flat map |
| PageEffects.RoundUpMeaning | include/kernel/types.h:47-47 | the rounding macro on 64 bits: up to a page, and 0 for what would pass the top |
| PageFree.FreesExactly | kernel/mm/pagetable.c:51-86 | the released pages are exactly the table pages of the tree at all three levels, none twice |
| PageTable.PageTables.FreePagetable | kernel/mm/pagetable.c:74-86 | put_page is called for every table page of the tree once and for nothing else; all other trees stay |
| PageCopy.SharedEntryMeaning | kernel/mm/pagetable.c:377-398 | share mode 1 keeps page and flags, mode 2 keeps the page and clears only W |
| PageCopy.DuplicateStep | kernel/mm/pagetable.c:341-366 | a private copy stays a copy, on pages no two mappings share, while later pages are copied |
| PageTable.PageTables.Copy | kernel/mm/pagetable.c:309-404 | it fails if and only if one root, the middle and leaf tables of the range and, in mode 0, the pages to copy are more than the free pages; otherwise the new tree maps nothing outside the range and inside it what the mode promises, and the source changes only in mode 2 and only in W; after a failure every page taken was put back once or is a lost mode 0 copy, and where it stopped is determined |
| PageNeed.CountWalk | kernel/mm/pagetable.c:338-398 | one more mapping is copied if and only if the pages suffice for it, and the tables are those the mappings copied so far ask for |
| PageNeed.TreeSettled | kernel/mm/pagetable.c:338-357 | after a failed copy every page that was free is put back exactly once, as a table or as the one loose page, or is one of the copies made |
| PageNeed.CopyResidue | kernel/mm/pagetable.c:380-398 | a copy-on-write copy that fails leaves the source unchanged if and only if the pages do not suffice up to any writable page of the range |
| PageTable.FailedCopy | kernel/mm/pagetable.c:380-398 | two writable pages that need four tables, and three pages: the copy fails, and the first page of the source is read-only |
| HardwareWalk.HardwareAgrees | kernel/mm/pagetable.c:91-131 | for every 64-bit address the walk of sections 4.3.2 and 4.4 of the RISC-V Privileged Architecture finds a page if and only if the flat map has a usable entry, and it is that entry |
| HardwareWalk.WalkFrom | kernel/mm/pagetable.c:105-130 | at every level the processor stands on the table the kernel's walk is on |
| FdtTree.BswapReverses | kernel/drivers/dts_parse.c:11-15 | the byte order is reversed |
| FdtTree.NameBytes | kernel/drivers/dts_parse.c:54-56 | the bytes of a node name can be read back from its words, followed by a zero |
| FdtScan.ScanHelper | kernel/drivers/dts_parse.c:17-72 | on every encoded well-formed body it stops just past the matching end token, makes the calls of the tree-level scan and leaves the words of the edited tree |
| FdtScan.Overwrite | kernel/drivers/dts_parse.c:57-58 | the deletion loop turns exactly the node's words into NOPs |
| FdtScan.Start | kernel/drivers/dts_parse.c:89-99 | a foreign blob is left alone; otherwise the calls give the encoded tree back and the words are again a well-formed tree |
| FdtScan.ReadCells | kernel/drivers/dts_parse.c:74-87 | the last two cells joined in 64 bits; no cells give 0 |
| FdtOrder.CallsInOrder | kernel/drivers/dts_parse.c:29-70 | for every well-formed tree: open, the properties in order, done exactly once, the subnodes in the same way, close |
| FdtLaws.ScanRebuilds | kernel/drivers/dts_parse.c:29-70 | the tree can be rebuilt from the calls alone, so scanning undoes encoding, whatever close answers |
| FdtLaws.ScanOverwrites | kernel/drivers/dts_parse.c:50-61 | deletion overwrites exactly the words of the refused nodes with NOP and moves nothing |
| FdtLaws.ScanWellFormed | kernel/drivers/dts_parse.c:50-61 | what deletion leaves is well formed |
| FdtLaws.NopsInvisible | kernel/drivers/dts_parse.c:31-34 | NOP tokens change no call |
| FdtLaws.SecondScan | kernel/drivers/dts_parse.c:50-61 | a second scan with any callbacks sees exactly the original tree without the refused subtrees |
| FdtCells.ScanReports | kernel/drivers/dts_parse.c:23-46 | the address cells and the size cells each subnode is reported with, in terms of the tree |
| FdtCells.CellsAsSpecified | kernel/drivers/dts_parse.c:23-46 | for #address-cells with default 2 and #size-cells with default 1: they are the node's own value or the default of the Devicetree Specification if and only if no silent node follows a sibling that declares another value |
| FdtCells.CellsInherited | kernel/drivers/dts_parse.c:23-26 | two siblings for which they are not |
| RadixNodes.StoreFind | kernel/util/radix_tree.c:236-237 | a store into a leaf slot changes the lookup of one index only |
| RadixNodes.LinkFind | kernel/util/radix_tree.c:112-123 | linking an empty node changes no lookup |
| RadixNodes.GrowFind | kernel/util/radix_tree.c:65-79 | a root above the old one changes no lookup below 64^height |
| RadixTree.NeededIsLeast | kernel/util/radix_tree.c:45-50 | the height chosen is the least the test accepts |
| RadixTree.Radix.Extend | kernel/util/radix_tree.c:38-83 | roots are added up to that height and the map stays the same, also when an allocation fails on the way; how many nodes the path of the index still lacks is a function of the tree before |
| RadixTree.Radix.CreatePath | kernel/util/radix_tree.c:86-134 | the leaf slot of the index, with the map unchanged; an index is refused as invalid if and only if it is above 64^4, or 0 or 1 in an empty tree, and for lack of memory if and only if the roots to add and the nodes its path lacks are more than the allocator has; otherwise exactly those are taken |
| RadixTree.Radix.Insert | kernel/util/radix_tree.c:218-240 | success adds one binding to the map, every failure keeps the map, an occupied slot is never overwritten and is reported as such whenever no node is missing; -EINVAL and -ENOMEM have exact conditions on the tree before |
| RadixTree.Radix.LookupItem | kernel/util/radix_tree.c:244-272 | the value of the map, except that 64^height reads slot 0 |
| RadixLaws.InsertRefinesMap | kernel/util/radix_tree.c:38-83 | a successful insert is a map update as seen by every lookup if and only if the index is not the boundary value, index 0 does not alias it, and slot 0 is empty when the tree grows |
| RadixLaws.InsertClear | kernel/util/radix_tree.c:218-240 | inserting an index that meets the condition updates exactly its own lookup |
| RadixLaws.GrowthPreserves | kernel/util/radix_tree.c:55-80 | adding roots keeps all lookups if and only if nothing is stored at index 0 |
| RadixLaws.BoundaryLost | kernel/util/radix_tree.c:46-46 | an item put at 64 shows up at 0 and is lost when the tree grows |
| RadixWalk.CountItems | kernel/util/radix_tree.c:566-589 | the number of entries below a node |
| RadixWalk.ForEach | kernel/util/radix_tree.c:601-636 | visits the entries in order, makes no call after the first refusal even across subtrees, and returns the number accepted |
| RadixWalk.EntriesList | kernel/util/radix_tree.c:601-636 | the entries are strictly increasing in index and are exactly the nonempty lookups of the range |
| RadixWalk.VisitIsMap | kernel/util/radix_tree.c:592-647 | what is visited and counted is exactly the map |
| PathNames.ComponentsOfSlashed | kernel/fs/vfs/vfs.c:203-265 | cutting a path made of plain names at its slashes gives the names back |
| Dentries.FreeOk | kernel/fs/vfs/dentry.c:135-185 | freeing an entry with one reference hands its reference on the parent over and keeps every count equal to holders plus children |
| Dentries.NewOk | kernel/fs/vfs/dentry.c:273-305 | a new entry takes a reference on its parent and keeps every count |
| Dentries.AllSurvive | kernel/fs/vfs/dentry.c:122-130 | no entry is freed and no cached name is lost while every reference held before is still held |
| PathWalk.Dcache.Ref | kernel/fs/vfs/dentry.c:100-105 | one more reference to one entry |
| PathWalk.Dcache.Unref | kernel/fs/vfs/dentry.c:122-130 | the entry is freed exactly with its last reference, its parent exactly when that was its last too; no other holder's references change |
| PathWalk.Dcache.Free | kernel/fs/vfs/dentry.c:135-185 | the entry leaves cache and tree, and the chain of parents is dropped as far as it has no other reference |
| PathWalk.Dcache.Acquire | kernel/fs/vfs/dentry.c:39-98 | the cached child with one more reference, else a new negative child that is cached; the error codes for an empty name, a parent that is no directory and exhausted memory are exact |
| PathWalk.Dcache.AllocFullPath | kernel/fs/vfs/dentry.c:413-488 | the zero-terminated names from the root down, written inside the buffer, and every reference count as before |
| PathWalk.Dcache.MeasurePath | kernel/fs/vfs/dentry.c:417-439 | the first pass measures the joined names plus one and restores every count |
| PathWalk.Dcache.FillNames | kernel/fs/vfs/dentry.c:446-470 | the backward pass leaves the names joined by slashes and its reference on the root |
| PathWalk.Dcache.Replace | kernel/fs/vfs/vfs.c:249-254 | dropping an entry before taking another: the parent is gone exactly when neither had another reference |
| PathWalk.Dcache.Enter | kernel/fs/vfs/vfs.c:267-298 | one component: the error is a function of the tables, the memory and the answer; on success the walk's reference moves to the child and the tables change by at most that child; on failure the reference is dropped and nothing else remains |
| PathWalk.Dcache.Complete | kernel/fs/vfs/vfs.c:276-294 | a negative entry becomes positive exactly when the file system finds it, and only the file system's own error is reported |
| PathWalk.Dcache.AddChild | kernel/fs/vfs/dentry.c:273-305 | a new negative entry below its parent, held once, cached if it can be hashed |
| PathResolve.FreshCounts | kernel/fs/vfs/vfs.c:249-254 | an entry the walk created has one reference; its parent has no other if and only if the walk created that too |
| PathResolve.StepUp | kernel/fs/vfs/vfs.c:222-259 | the parent, or from a mount's root the parent of its mount point in the mount above; it dangles if and only if the parent did not exist before the walk; a new entry left behind is the only one freed |
| PathResolve.StepInto | kernel/fs/vfs/vfs.c:204-338 | one component of any kind does what the specification says of the spot: the place, the error or dangling, the entries made and completed and the memory left; exactly one reference to entry and mount is kept |
| PathFate.DanglesWhen | kernel/fs/vfs/vfs.c:249-254 | over path, cache and file system: a walk dangles if and only if it takes ".." while the two innermost entries are both new |
| PathFate.NeverWithoutLookup | kernel/fs/vfs/vfs.c:276-294 | with a file system that finds no directories no walk dangles |
| PathResolve.DanglingWalk | kernel/fs/vfs/vfs.c:249-254 | from a root alone, with a file system that finds directories, "a/b/.." dangles |
| PathResolve.ClearFate | kernel/fs/vfs/vfs.c:203-338 | a path that needs no new entry and no file system ends where following the cache leads |
| PathResolve.Cross | kernel/fs/vfs/vfs.c:300-316 | crossing into a mounted file system exchanges both references and leaves the tables as they are |
| PathResolve.LookupMountpoint | kernel/fs/vfs/dentry.c:996-1043 | the mount of the nearest mount point at or above the entry, with one more reference |
| PathResolve.Cut | kernel/fs/vfs/vfs.c:205-214 | cutting the copy in place yields the next component and leaves the rest of the path |
| PathResolve.Walk | kernel/fs/vfs/vfs.c:159-342 | every walk ends as the specification says: at the place with the entries made on the way, with the error, or dangling; success carries exactly one new reference to entry and mount, failure none, everything that existed still exists under its name; a path the cache can answer changes nothing else |
| PathRoundTrip.NamesLeadBack | kernel/fs/vfs/vfs.c:203-338 | the names of an entry, followed from its root, lead to the entry; the file system is asked only about a negative entry |
| PathRoundTrip.PrintedFate | kernel/fs/vfs/vfs.c:203-338 | the specified fate of the printed names: the entry itself, completed if need be, or the file system's error |
| PathRoundTrip.PrintThenWalk | kernel/fs/vfs/dentry.c:413-488 | printing an entry whose ancestors are directories cached under plain names and walking the text returns that entry, with one more reference and everything else as before, except that a negative entry the file system has come to know is completed; with memory the only other outcome is the file system's own error for a negative entry |
| Bitmap.SetBitAt | kernel/mm/slab.c:34-50 | setting or clearing a bit changes that bit only |
| Bitmap.FirstZero | kernel/mm/slab.c:55-64 | the first clear bit below the size, -1 exactly when all are set |
| Slab.Fits | kernel/mm/slab.c:96-100 | for every object size the objects fit the page and the bitmap; only 2048-byte slabs hold a single one |
| Slab.ObjectRoundTrip | kernel/mm/slab.c:69-78 | an object lies behind the header inside its page, and masking its pointer gives back its slab and its bit |
| Slab.ObjectsApart | kernel/mm/slab.c:76-78 | different objects do not overlap |
| Slab.BitmapInline | include/kernel/mm/slab.h:20-27 | the bitmap ends before the objects if and only if they have at least 128 bytes; which objects it runs into otherwise |
| Slab.WipedHarmless | kernel/mm/slab.c:163-167 | zeroing an object leaves every bitmap as it is if and only if the object is not one of the first two of 16 bytes or the first of 32 or 64 bytes |
| Slab.WipedExample | kernel/mm/slab.c:163-167 | a bit of an object in use that is cleared |
| Slab.EmptyIff | kernel/mm/slab.c:194-205 | a slab belongs on the empty list if and only if all its objects are free and it is not a 2048-byte slab, on the full list if and only if none is |
| Slab.TakeOk | kernel/mm/slab.c:145-160 | taking an object leaves every slab on exactly the list its free count asks for |
| Slab.GiveOk | kernel/mm/slab.c:194-205 | so does giving one back |
| Slab.TakenOk | kernel/mm/slab.c:152-155 | the free count stays the number of clear bits, and one object's use changes |
| SlabAllocator.Allocator.CacheFor | kernel/mm/slab.c:244-260 | the smallest cache that is large enough |
| SlabAllocator.Allocator.AllocObj | kernel/mm/slab.c:118-170 | an object that was not in use; it fails only without a page when every slab of the cache is full; the only slab that can be new is the page offered |
| SlabAllocator.Allocator.SlabAlloc | kernel/mm/slab.c:265-287 | a pointer that was not in use, to an object of the smallest size class that holds the size asked for, and no other pointer's use changes; up to 2048 bytes it fails only without a page when every slab of that class is full |
| SlabAllocator.Allocator.FreeObj | kernel/mm/slab.c:175-221 | exactly one object goes out of use, and only an empty slab is given up |
| SlabAllocator.Allocator.SlabFree | kernel/mm/slab.c:301-327 | freeing the pointer of an object in use frees exactly that object |
| SlabAllocator.Allocator.Serve | kernel/mm/slab.c:118-221 | over every run: no pointer is handed out while it is held; a request of at most 2048 bytes with a page not seen before is served, a larger one never; freeing succeeds exactly for what is held; in the end the pointers in use are exactly those handed out and not freed since, each object is as large as was asked for, and no two overlap |
| Areas.PageCountCovers | kernel/mm/vma.c:134-135 | the stored page count covers an area if and only if it has at most 2^31 - 1 pages |
| Areas.HugeAreaIsNotCovered | kernel/mm/vma.c:134-135 | an area it does not cover |
| Areas.AddressSpace.FindVma | kernel/mm/mm_struct.c:100-111 | the only area containing the address, or none |
| Areas.AddressSpace.FindIntersection | kernel/mm/mm_struct.c:117-130 | some area meeting the range, none exactly when no area does or the range is empty or wraps |
| Areas.AddressSpace.AreaSetup | kernel/mm/vma.c:34-69 | with memory it succeeds if and only if the range is not empty, does not wrap and meets no area; then exactly one area is added and all stay apart; failure changes nothing |
| Areas.AddressSpace.FindFreeArea | kernel/mm/mmap.c:113-121 | the first address from the break on, in page steps, whose range meets no area or wraps |
| Areas.AddressSpace.MmapFile | kernel/syscall/mmap.c:37-98 | the range asked for or the first free one becomes an area, with memory if and only if it does not wrap and is free; the error codes are exact and every failure changes nothing |
| Areas.AddressSpace.DoBrk | kernel/mm/mmap.c:261-368 | the break moves to a page boundary at or above its start, or the error says why not, -ENOMEM if and only if the range is taken or an allocation it needs fails; growing adds exactly the new range; shrinking cuts the heap area, and its pages above the break leave the array and the page table through both put_page calls; page arrays go on covering if and only if the heap area has at most 2^31 - 1 pages |
| HeapDrop.DropMeaning | kernel/mm/mmap.c:340-355 | which addresses are given up is a function of the page array before: those with a page in it whose index no earlier address of the range had; exactly their array elements are cleared and exactly they lose their mapping |
| HeapDrop.PutCount | kernel/mm/mmap.c:350-351 | put_page gets the pages that leave the array and the frames their addresses were mapped to |
| HeapDrop.PutOnce | kernel/mm/mmap.c:350-351 | over the state before: the pages given up are put exactly once if and only if no address given up is mapped; up to 2^32 pages those are the addresses of the range with a page in the array |
| Areas.CutPutsOnce | kernel/mm/mmap.c:333-362 | the same of a cut of the heap area: its pages are put exactly once if and only if no address with a page in its array above the new break is mapped |
| HeapDrop.PutTwice | kernel/mm/mmap.c:350-351 | when every recorded page is mapped at its address, each page given up is put twice |
| HeapExample.BrkPutsTwice | kernel/mm/mmap.c:350-351 | a heap of two pages for which it is |
| Areas.AddressSpace.Serve | kernel/mm/mmap.c:261-368 | every run of area, mapping and break requests is a run of the steps specified for them, with their answers; areas stay apart and counted, and every page array covers its area while no area is made or extended past the int32 page count |
| Areas.GrownOccupies | kernel/mm/mmap.c:281-331 | growing the heap occupies exactly the new range |
| Areas.CutOccupies | kernel/mm/mmap.c:333-362 | shrinking an area frees exactly the addresses it had above its new end |
| Protect.PteFlags | kernel/mm/mmap.c:8-21 | flag bits only, always readable, writable or executable, W and X as requested, R also when nothing was requested |
| Protect.ProtectedMeaning | kernel/mm/mmap.c:447-453 | a protected mapping keeps its page and has the new flags inside the range, its old ones outside |
| Protect.ReachedStep | kernel/mm/mmap.c:424-456 | each area of the loop is still unchanged when it is reached, and is changed as a whole |
| Protect.DoProtect | kernel/mm/mmap.c:384-463 | 0 if and only if the rounded range does not wrap and every address in it lies in an area that permits the request; otherwise it stops at the first address that does not, and the error says whether an area is there; no mapping is added, removed or re-targeted, no entry outside the range changes, and the entries that have the new flags are exactly those of the range on success, and on failure those up to the page where the walk through the last area stopped |
| Protect.RangeMeant | kernel/mm/mmap.c:399-409 | success covers every byte asked for if and only if the length can be rounded up without wrapping |
| Protect.GrantedWithoutAreas | kernel/mm/mmap.c:399-409 | a request for 2^64 - 1 bytes of an address space without areas succeeds |
| Protect.ProtectIndependent | kernel/mm/mmap.c:424-456 | a change of protection has no influence on what later requests are granted, or on which error they get |
| HashNodes.NextPowerOf2 | include/kernel/util/hashtable.h:115-123 | the least power of two not below the argument, 0 for 0 and above 2^31 |
| HashNodes.MaskIsRemainder | kernel/util/hashtable.c:108-122 | for powers of two the mask takes the remainder and the size bit is the parity of the quotient |
| HashNodes.DoubledSlot | kernel/util/hashtable.c:112-122 | the index in the doubled array is the old one, or the old one plus the size, by one bit of the hash |
| HashTable.Table.MoveBucket | kernel/util/hashtable.c:94-133 | a bucket's nodes go to the new array, each once and each to its index there |
| HashTable.Table.TryExpand | kernel/util/hashtable.c:51-156 | it fails exactly when a loaded table has no memory to start growing; otherwise one batch of at most sixteen buckets moves, nothing is in both arrays, and the last batch makes the new array the table |
| HashTable.Table.Migrate | kernel/util/hashtable.c:51-156 | a migration with no insert in between keeps every lookup |
| HashTable.Table.Finish | kernel/util/hashtable.c:138-152 | batches to the end with no insert in between: the nodes from the cursor on join those moved before, and exactly the nodes in buckets the cursor had passed are lost |
| HashTable.Table.InsertThenFinish | kernel/util/hashtable.c:160-203 | for every loaded table: a node that was inserted is in the table the expansion ends with if and only if the step before its link finished the expansion or stopped short of its bucket |
| HashTable.LostInsert | kernel/util/hashtable.c:160-203 | a table of 32 buckets with sixteen nodes: the next insert succeeds, and its key is not found once the expansion has ended |
| HashTable.Table.LookupDuring | kernel/util/hashtable.c:208-233 | for every loaded table and any number of batches: a key that was there is found if and only if the expansion has ended or has not come to its bucket |
| HashTable.SameKeyTwice | kernel/util/hashtable.c:160-203 | a key that is found, and whose second node the next insert lets in |
| HashTable.Table.Lookup | kernel/util/hashtable.c:208-233 | the node of the map, if the key is in it |
| HashTable.Table.Insert | kernel/util/hashtable.c:160-203 | in every state: no memory to start growing is the only reason for -ENOMEM; otherwise one step of the expansion if the table is loaded, then the node joins the table's array unless its key is there; below the threshold, and at any load with at most sixteen buckets, a map insertion that refuses existing keys; the insert that starts an expansion refuses a key if and only if it was there and its bucket is not one of the first sixteen of more |
| HashTable.Table.RemoveByKey | kernel/util/hashtable.c:265-293 | a map removal, refused exactly for missing keys |
| FdTable.ClosedSlots | kernel/fs/vfs/fdtable.c:238-258 | closing frees one slot and keeps the slots below the hint full if and only if the slot held a file or lies at or above the hint |
| FdTable.HoleBelowHint | kernel/fs/vfs/fdtable.c:245-253 | in a new table of sixteen slots, closing a descriptor before a file is installed leaves a hole, and the next allocation passes over it |
| FdTable.GrownSlots | kernel/fs/vfs/fdtable.c:140-175 | growth keeps every entry and flag and adds free slots |
| FdTable.Table.FindNextFd | kernel/fs/vfs/fdtable.c:188-196 | the first free slot from the start on |
| FdTable.Table.AllocFd | kernel/fs/vfs/fdtable.c:201-233 | the first free slot from the hint on, else the first free one, becomes taken and no other changes, and it fails if and only if the table is full and cannot double; the slot is the lowest free one if and only if the slots below the hint or those from it on are full |
| FdTable.Table.InstallFd | kernel/fs/vfs/fdtable.c:263-286 | installs only into an allocated slot |
| FdTable.Table.Serve | kernel/fs/vfs/fdtable.c:201-286 | every run that closes only installed descriptors gives the answers and the table of the specification, in which an allocation returns the lowest free descriptor; the slots below the hint stay full |
| PidSteps.StepKeeps | kernel/sched/pid.c:16-52 | every atomic step of every hart keeps mutual exclusion, one owner per pid and the cursor's history |
| PidSteps.OthersWait | include/kernel/util/spinlock.h:36-47 | while a hart holds the lock the steps of the others change neither bitmap nor cursor |
| PidSteps.EveryState | include/kernel/util/spinlock.h:36-47 | the invariant holds in every state of every interleaving |
| PidSteps.PidsAreExclusive | kernel/sched/pid.c:16-52 | no two holders share a pid, and a pid about to be returned is held by nobody |
| PidSteps.ScanSawAll | kernel/sched/pid.c:20-38 | an allocation fails only when all of 1 to PID_MAX - 1 are live, and the cursor moves only over live pids |
| PidSteps.SeenWasLive | kernel/sched/pid.c:20-31 | every pid the cursor has passed as live had its bit set in the state whose step moved the cursor |
| PidSteps.RoundRobin | kernel/sched/pid.c:20-31 | between two issues of a pid the cursor has issued every other one or passed it while its bit was set |
| Pid.Manager.Alloc | kernel/sched/pid.c:16-38 | the first free pid from the cursor on, round the ring; it fails if and only if all are live |
| Pid.Manager.Free | kernel/sched/pid.c:41-52 | exactly one pid becomes free |
| PrintNum.DigitsValue | kernel/util/vprint.c:242-252 | the digits printed for a number read back as the number |
| PrintNum.DigitCount | kernel/util/vprint.c:238-256 | a 64-bit number has at most 64 digits, which bounds every write |
| PrintNum.ReverseFront | kernel/util/vprint.c:278-295 | the in-place reversal |
| PrintNum.Print | kernel/util/vprint.c:225-298 | the field for every value, base, width, sign, alignment and padding, written inside the buffer |
| PrintNum.FormattedReadsBack | kernel/util/vprint.c:225-298 | the field is as wide as asked for or as the text needs, and reads back as sign and value |

## Left out

- Concurrency outside the pid allocator: the other structures are modelled between their lock and unlock.
- Page reference counts and reclamation: `put_page` is a call trace, `alloc_page` a contract; reading the address of a page that could not be allocated is modelled as getting address 0.
- `pt_stats.page_tables`: tables created by a walk are not counted by the code either.
- PageTable.PageTables.Copy: in mode 0 the pages to copy must be readable memory, which the code also takes for granted.
- PageTable.PageTables.MapPage: `mapped_pages` is an unbounded integer, not a 32-bit counter.
- HardwareWalk.HardwareAgrees: without the access, accessed and dirty checks; an entry that is writable but not readable is a fault.
- FdtScan.ScanHelper: for well-formed structure blocks whose property lengths stay below 2^31; malformed blobs are not modelled.
- FdtScan.Start: the header offsets are given as the position and the strings block.
- Radix delete, shrink, tags, gang lookup and the `count` and `parent` fields.
- RadixWalk.ForEach: the callback's answer is a function of the calls made so far, and the disjoint index bits are added instead of or-ed.
- PathResolve.Walk: the file system's lookup is an answer per directory and name, a directory being an entry there was and the names created below it; the reference of a found entry is owned by it; entries have no revalidation operation, as no code in the repository sets one; symbolic links are commented out in the source.
- PathResolve.LookupMountpoint: mounts are not created or removed during a walk, and their counts never reach zero there.
- PathWalk.Dcache.AllocFullPath: with a length below 2^31, and inode aliases and lists of the dentry are not modelled.
- SlabAllocator.Allocator.SlabAlloc: the bitmap is an array of its own and object bytes are not modelled, so that zeroing an object changes no bit; `Slab.WipedHarmless` says for which sizes and objects that is so in the page itself.
- SlabAllocator.Allocator.Serve: for the same reason it speaks of the code for objects of at least 128 bytes.
- SlabAllocator.Allocator.FreeObj: whether an empty slab is given up is a free choice, because the free-object counter it depends on is never credited for new slabs.
- SlabAllocator.Allocator.SlabFree: a pointer that is not NULL must lie in a slab page, because the code reads the header of its page, and the object must be in use, because the code panics otherwise.
- PidSteps.StepKeeps: callers hand a pid to pid_free only while they hold it, and once; interrupts are not modelled.
- Areas.AddressSpace.MmapFile: without MAP_POPULATE.
- Splitting and removing areas, populating them, page faults and copies from and to user memory.
- HashTable.Table.Insert: a node must not be linked already.
- HashTable.Table.TryExpand: the expansion state is that of one table, although the code shares it between tables; a table of 2^31 buckets cannot grow.
- HashTable.Table.constructor: sizes and load factors are already adjusted; keys are compared by equality and are functions of the node.
- FdTable.Table.Expand: tables of more than 2^31 slots do not fit in memory; references to files are not counted.
- PrintNum.Print: for widths that do not overflow an int with the buffer's extra 70; only bases the formatter uses.
- Buffer cache, page cache, ext4 adapter, traps, scheduling, drivers other than the device tree, system calls and console.
